/** Display ids as the program stores them: dotted decimal strings. `generateDisplayId`
    writes them with a template (src/App.tsx:26) and `parseDisplayId` reads them back
    with `split('.')` and `parseInt(part, 10)` (src/components/TaskList.tsx:21-23). */
module DisplayIdText {
  import opened Tasks

  predicate IsDigit(c: char)
  {
    '0' <= c <= '9'
  }

  function DigitChar(d: nat): (c: char)
    requires d < 10
    ensures IsDigit(c) && c as int - '0' as int == d
  {
    ('0' as int + d) as char
  }

  /** `String(n)` for a natural number: its decimal digits, without leading zeros. */
  function NatToString(n: nat): (s: string)
    ensures s != [] && forall i :: 0 <= i < |s| ==> IsDigit(s[i])
    decreases n
  {
    if n < 10 then [DigitChar(n)] else NatToString(n / 10) + [DigitChar(n % 10)]
  }

  /** `parseInt(s, 10)` on a string of decimal digits. */
  function ParseNat(s: string): (n: nat)
    requires forall i :: 0 <= i < |s| ==> IsDigit(s[i])
  {
    if s == [] then 0
    else
      assert IsDigit(s[|s| - 1]);
      ParseNat(s[..|s| - 1]) * 10 + (s[|s| - 1] as int - '0' as int)
  }

  /** Reading back the decimal digits of `n` gives `n`. */
  lemma {:induction false} ParseNatString(n: nat)
    ensures ParseNat(NatToString(n)) == n
    decreases n
  {
    var s := NatToString(n);
    if n >= 10 {
      ParseNatString(n / 10);
      assert s[..|s| - 1] == NatToString(n / 10);
    }
  }

  /** A display id written out: its parts in decimal, joined by dots. The last part is
      appended to the rest as in the template `${parent.displayId}.${n}`. */
  function Format(d: DisplayId): (s: string)
    ensures forall i :: 0 <= i < |s| ==> IsDigit(s[i]) || s[i] == '.'
    decreases |d|
  {
    if |d| == 0 then []
    else if |d| == 1 then NatToString(d[0])
    else Format(d[..|d| - 1]) + "." + NatToString(d[|d| - 1])
  }

  /** The position of the last dot in `s`, or -1 when there is none. */
  function LastDot(s: string): (k: int)
    ensures -1 <= k < |s|
    ensures k >= 0 ==> s[k] == '.'
    ensures forall i :: k < i < |s| ==> s[i] != '.'
  {
    if s == [] then -1
    else if s[|s| - 1] == '.' then |s| - 1
    else LastDot(s[..|s| - 1])
  }

  /** `s.split('.')`: the pieces between the dots, one more than there are dots. */
  function Split(s: string): (ps: seq<string>)
    ensures |ps| >= 1
    ensures forall i, j :: 0 <= i < |ps| && 0 <= j < |ps[i]| ==> ps[i][j] != '.'
    decreases |s|
  {
    var k := LastDot(s);
    if k == -1 then [s] else Split(s[..k]) + [s[k + 1..]]
  }

  /** Joining the pieces with dots gives back the string, so the pieces are exactly the
      text between consecutive dots. */
  function Join(ps: seq<string>): string
    requires |ps| >= 1
  {
    if |ps| == 1 then ps[0] else Join(ps[..|ps| - 1]) + "." + ps[|ps| - 1]
  }

  lemma {:induction false} JoinSplit(s: string)
    ensures Join(Split(s)) == s
    decreases |s|
  {
    var k := LastDot(s);
    if k != -1 {
      JoinSplit(s[..k]);
      var ps := Split(s);
      assert ps[..|ps| - 1] == Split(s[..k]);
      assert s == s[..k] + "." + s[k + 1..];
    }
  }

  /** Splitting a string with no dot gives the string alone. */
  lemma {:induction false} SplitNoDot(s: string)
    requires forall i :: 0 <= i < |s| ==> s[i] != '.'
    ensures Split(s) == [s]
  {
  }

  /** Splitting `p + "." + q`, where `q` holds no dot, splits `p` and adds `q`. */
  lemma {:induction false} SplitLast(p: string, q: string)
    requires forall i :: 0 <= i < |q| ==> q[i] != '.'
    ensures Split(p + "." + q) == Split(p) + [q]
  {
    var s := p + "." + q;
    assert s[|p|] == '.';
    assert LastDot(s) == |p| by {
      LastDotAfter(s, |p|);
    }
    assert s[..|p|] == p && s[|p| + 1..] == q;
  }

  /** A dot at `k` with none after it is the last dot. */
  lemma {:induction false} LastDotAfter(s: string, k: int)
    requires 0 <= k < |s| && s[k] == '.' && forall i :: k < i < |s| ==> s[i] != '.'
    ensures LastDot(s) == k
    decreases |s|
  {
    if k < |s| - 1 {
      LastDotAfter(s[..|s| - 1], k);
    }
  }

  /** `parseDisplayId(displayId)`: split at the dots and read each piece in decimal.
      It is given strings whose pieces are decimal digits, the only strings the program
      writes. */
  function ParseDisplayId(s: string): (d: DisplayId)
    requires forall i :: 0 <= i < |s| ==> IsDigit(s[i]) || s[i] == '.'
    ensures |d| == |Split(s)|
  {
    var ps := Split(s);
    PiecesAreDigits(s);
    seq(|ps|, i requires 0 <= i < |ps| => ParseNat(ps[i]))
  }

  /** Every piece of a string of digits and dots is made of digits. */
  lemma {:induction false} PiecesAreDigits(s: string)
    requires forall i :: 0 <= i < |s| ==> IsDigit(s[i]) || s[i] == '.'
    ensures forall i, j :: 0 <= i < |Split(s)| && 0 <= j < |Split(s)[i]| ==> IsDigit(Split(s)[i][j])
    decreases |s|
  {
    var k := LastDot(s);
    if k != -1 {
      PiecesAreDigits(s[..k]);
      var ps := Split(s);
      assert ps[..|ps| - 1] == Split(s[..k]);
      var last := s[k + 1..];
      assert ps[|ps| - 1] == last;
      forall j | 0 <= j < |last| ensures IsDigit(last[j]) {
        assert last[j] == s[k + 1 + j];
      }
    }
  }

  /** Splitting a formatted display id gives the decimal strings of its parts. */
  lemma {:induction false} SplitFormat(d: DisplayId)
    requires |d| >= 1
    ensures |Split(Format(d))| == |d|
    ensures forall i :: 0 <= i < |d| ==> Split(Format(d))[i] == NatToString(d[i])
    decreases |d|
  {
    if |d| == 1 {
      SplitNoDot(NatToString(d[0]));
    } else {
      var p, q := d[..|d| - 1], NatToString(d[|d| - 1]);
      SplitFormat(p);
      assert Format(d) == Format(p) + "." + q;
      SplitLast(Format(p), q);
      PartsSnoc(d, p, Split(Format(p)), Split(Format(d)));
    }
  }

  /** The parts of `p` followed by the part of the last number are the parts of `d`. */
  lemma {:induction false} PartsSnoc(d: DisplayId, p: DisplayId, pre: seq<string>, ps: seq<string>)
    requires |d| >= 1 && p == d[..|d| - 1] && ps == pre + [NatToString(d[|d| - 1])]
    requires |pre| == |p| && forall i :: 0 <= i < |p| ==> pre[i] == NatToString(p[i])
    ensures |ps| == |d| && forall i :: 0 <= i < |d| ==> ps[i] == NatToString(d[i])
  {
    forall i | 0 <= i < |p|
      ensures ps[i] == NatToString(d[i])
    {
      assert ps[i] == pre[i] && p[i] == d[i];
    }
  }

  /** Reading back a written display id gives the same parts: `parseDisplayId` inverts
      the formatting of a non-empty display id. */
  lemma {:induction false} ParseFormat(d: DisplayId)
    requires |d| >= 1
    ensures ParseDisplayId(Format(d)) == d
  {
    SplitFormat(d);
    var r := ParseDisplayId(Format(d));
    forall i | 0 <= i < |d| ensures r[i] == d[i] {
      ParseNatString(d[i]);
    }
  }

  /** The id a child receives, `${parent.displayId}.${n}`, reads back as the parent's
      parts followed by `n`. */
  lemma {:induction false} ParseChildDisplayId(p: DisplayId, n: nat)
    requires |p| >= 1
    ensures ParseDisplayId(Format(p) + "." + NatToString(n)) == p + [n]
  {
    var d := p + [n];
    assert d[..|d| - 1] == p;
    assert Format(d) == Format(p) + "." + NatToString(n);
    ParseFormat(d);
  }
}
