/**
 Text helpers the blog relies on: Python's `str.strip()` (used on tag names
 before lookup), `str.lower()` (applied by `Tag.save`), and the order in
 which tag names are listed (`Tag.Meta.ordering = ['name']`).
 */
module Text {

  /** The characters Python's `str.isspace()` accepts, and so the ones `strip()` removes. */
  predicate IsSpace(c: char) {
    || c == ' '
    || ('\t' <= c <= '\r')
    || ('\U{1C}' <= c <= '\U{1F}')
    || c == '\U{85}' || c == '\U{A0}' || c == '\U{1680}'
    || ('\U{2000}' <= c <= '\U{200A}')
    || c == '\U{2028}' || c == '\U{2029}' || c == '\U{202F}' || c == '\U{205F}' || c == '\U{3000}'
  }

  /** The index of the first non-space character of `s` at or after `i`, or `|s|` when there is none. */
  function StartOf(s: string, i: nat): (a: nat)
    requires i <= |s|
    ensures i <= a <= |s|
    ensures forall k :: i <= k < a ==> IsSpace(s[k])
    ensures a < |s| ==> !IsSpace(s[a])
    decreases |s| - i
  {
    if i < |s| && IsSpace(s[i]) then StartOf(s, i + 1) else i
  }

  /** The index just past the last non-space character of `s` in `[a, j)`, or `a` when there is none. */
  function EndOf(s: string, a: nat, j: nat): (b: nat)
    requires a <= j <= |s|
    ensures a <= b <= j
    ensures forall k :: b <= k < j ==> IsSpace(s[k])
    ensures b > a ==> !IsSpace(s[b - 1])
    decreases j
  {
    if j > a && IsSpace(s[j - 1]) then EndOf(s, a, j - 1) else j
  }

  /** Python's `str.strip()`: the longest middle slice of `s` that neither starts nor ends with whitespace. */
  function Strip(s: string): (r: string)
    ensures r == [] <==> forall i :: 0 <= i < |s| ==> IsSpace(s[i])
    ensures r != [] ==> !IsSpace(r[0]) && !IsSpace(r[|r| - 1])
    ensures var a := StartOf(s, 0);
            && a + |r| <= |s| && r == s[a..a + |r|]
            && (forall i :: 0 <= i < a ==> IsSpace(s[i]))
            && (forall i :: a + |r| <= i < |s| ==> IsSpace(s[i]))
  {
    var a := StartOf(s, 0);
    var b := EndOf(s, a, |s|);
    BlankWhenEmpty(s, a, b);
    s[a..b]
  }

  /** A string without whitespace strips to itself. */
  lemma NoSpaceStrips(s: string)
    requires forall i :: 0 <= i < |s| ==> !IsSpace(s[i])
    ensures Strip(s) == s
  {
  }

  lemma BlankWhenEmpty(s: string, a: nat, b: nat)
    requires a == StartOf(s, 0) && b == EndOf(s, a, |s|)
    ensures a == b ==> forall i :: 0 <= i < |s| ==> IsSpace(s[i])
  {
    if a == b {
      forall i | 0 <= i < |s|
        ensures IsSpace(s[i])
      {
        if i >= a {
          assert b <= i;
        }
      }
    }
  }

  predicate IsDigit(c: char) {
    '0' <= c <= '9'
  }

  /** Python's `str(n)` for a natural number: its decimal digits, without leading zeros. */
  function Decimal(n: nat): (r: string)
    ensures |r| >= 1
    ensures forall i :: 0 <= i < |r| ==> IsDigit(r[i])
    ensures r[0] == '0' ==> r == "0"
    decreases n
  {
    var d := ['0' + (n % 10) as char];
    if n < 10 then d else Decimal(n / 10) + d
  }

  /** The number a string of decimal digits denotes. */
  function DigitsValue(s: string): nat
    requires forall i :: 0 <= i < |s| ==> IsDigit(s[i])
  {
    if s == [] then 0
    else
      assert IsDigit(s[|s| - 1]);
      DigitsValue(s[..|s| - 1]) * 10 + (s[|s| - 1] as int - '0' as int)
  }

  /** Reading the decimal rendering back gives the number. */
  lemma {:induction false} DecimalRoundTrip(n: nat)
    ensures DigitsValue(Decimal(n)) == n
    decreases n
  {
    if n >= 10 {
      DecimalRoundTrip(n / 10);
      var r := Decimal(n);
      assert r[..|r| - 1] == Decimal(n / 10);
    }
  }

  /** Upper-case letters whose lower-case partner `LowerChar` knows: ASCII, Latin-1 and Cyrillic. */
  predicate IsUpper(c: char) {
    || ('A' <= c <= 'Z')
    || ('\U{C0}' <= c <= '\U{DE}' && c != '\U{D7}')
    || ('\U{400}' <= c <= '\U{42F}')
  }

  /** The lower-case partner of an upper-case letter; every other character is kept. */
  function LowerChar(c: char): (d: char)
    ensures !IsUpper(d)
    ensures !IsUpper(c) <==> d == c
    ensures ('A' <= c <= 'Z' || ('\U{C0}' <= c <= '\U{DE}' && c != '\U{D7}') || '\U{410}' <= c <= '\U{42F}') ==>
              d as int == c as int + 32
    ensures '\U{400}' <= c <= '\U{40F}' ==> d as int == c as int + 80
  {
    if 'A' <= c <= 'Z' then (c as int + 32) as char
    else if '\U{C0}' <= c <= '\U{DE}' && c != '\U{D7}' then (c as int + 32) as char
    else if '\U{410}' <= c <= '\U{42F}' then (c as int + 32) as char
    else if '\U{400}' <= c <= '\U{40F}' then (c as int + 80) as char
    else c
  }

  /** Python's `str.lower()` on the letters `IsUpper` covers. */
  function Lower(s: string): (r: string)
    ensures |r| == |s|
    ensures forall i :: 0 <= i < |s| ==> !IsUpper(r[i])
    ensures forall i :: 0 <= i < |s| && !IsUpper(s[i]) ==> r[i] == s[i]
    ensures forall i :: 0 <= i < |s| ==> r[i] == LowerChar(s[i])
  {
    seq(|s|, i requires 0 <= i < |s| => LowerChar(s[i]))
  }

  /** A name that `Tag.save` would store unchanged. */
  predicate IsLowered(s: string) {
    forall i :: 0 <= i < |s| ==> !IsUpper(s[i])
  }

  /** Lower-casing is idempotent, and its fixed points are exactly the lowered names. */
  lemma LowerIdempotent(s: string)
    ensures IsLowered(Lower(s))
    ensures Lower(Lower(s)) == Lower(s)
    ensures IsLowered(s) <==> Lower(s) == s
  {
    if !IsLowered(s) {
      var i :| 0 <= i < |s| && IsUpper(s[i]);
      assert Lower(s)[i] != s[i];
    }
  }

  /** Code-point lexicographic order on strings (a shorter prefix comes first). */
  predicate Less(a: string, b: string) {
    if |a| == 0 then |b| > 0
    else |b| > 0 && (a[0] < b[0] || (a[0] == b[0] && Less(a[1..], b[1..])))
  }

  lemma {:induction false} LessIrreflexive(a: string)
    ensures !Less(a, a)
  {
    if |a| > 0 {
      LessIrreflexive(a[1..]);
    }
  }

  lemma {:induction false} LessTransitive(a: string, b: string, c: string)
    requires Less(a, b) && Less(b, c)
    ensures Less(a, c)
  {
    if |a| > 0 && a[0] == b[0] && b[0] == c[0] {
      LessTransitive(a[1..], b[1..], c[1..]);
    }
  }

  lemma {:induction false} LessTotal(a: string, b: string)
    ensures a == b || Less(a, b) || Less(b, a)
  {
    if |a| > 0 && |b| > 0 && a[0] == b[0] {
      LessTotal(a[1..], b[1..]);
      if a[1..] == b[1..] {
        assert a == [a[0]] + a[1..] && b == [b[0]] + b[1..];
      }
    }
  }

  lemma LessAsymmetric(a: string, b: string)
    requires Less(a, b)
    ensures !Less(b, a)
  {
    if Less(b, a) {
      LessTransitive(a, b, a);
      LessIrreflexive(a);
    }
  }

  /** `m` comes first among the names in `s`. */
  predicate IsLeast(m: string, s: set<string>) {
    m in s && forall y :: y in s && y != m ==> Less(m, y)
  }

  lemma {:induction false} LeastExists(s: set<string>)
    requires s != {}
    ensures exists m :: IsLeast(m, s)
    decreases |s|
  {
    var x :| x in s;
    if s == {x} {
      assert IsLeast(x, s);
    } else {
      LeastExists(s - {x});
      var m :| IsLeast(m, s - {x});
      LessTotal(x, m);
      if Less(x, m) {
        forall y | y in s && y != x
          ensures Less(x, y)
        {
          if y != m {
            LessTransitive(x, m, y);
          }
        }
        assert IsLeast(x, s);
      } else {
        assert IsLeast(m, s);
      }
    }
  }

  lemma LeastUnique(s: set<string>)
    ensures forall m, n :: IsLeast(m, s) && IsLeast(n, s) ==> m == n
  {
    forall m, n | IsLeast(m, s) && IsLeast(n, s)
      ensures m == n
    {
      if m != n {
        LessAsymmetric(m, n);
      }
    }
  }

  /** The names of `s`, each once, in ascending order: the row order of a query ordered by name. */
  function SortedNames(s: set<string>): (r: seq<string>)
    ensures |r| == |s|
    ensures forall x :: x in r <==> x in s
    ensures forall i, j :: 0 <= i < j < |r| ==> Less(r[i], r[j])
    decreases |s|
  {
    if s == {} then []
    else
      LeastExists(s);
      LeastUnique(s);
      var m :| IsLeast(m, s);
      var rest := SortedNames(s - {m});
      assert forall j :: 0 <= j < |rest| ==> rest[j] in s - {m};
      [m] + rest
  }
}
