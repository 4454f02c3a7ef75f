/** String operations the listing and the name filter rely on: Rust's
    `str::contains`, `[String]::join`, decimal formatting of an unsigned
    integer and the right-aligned `{:>width}` format. */
module Text {

  /** `p` occurs in `s` starting at index `i`. */
  ghost predicate OccursAt(s: string, p: string, i: int) {
    0 <= i && i + |p| <= |s| && s[i..i + |p|] == p
  }

  /** Substring containment, as `str::contains(&str)`: the empty pattern is
      contained in every string; matching is exact and case-sensitive. */
  function Contains(s: string, p: string): (b: bool)
    ensures b <==> exists i :: OccursAt(s, p, i)
    decreases |s|
  {
    if |p| > |s| then
      assert forall i :: !OccursAt(s, p, i);
      false
    else if s[..|p|] == p then
      assert OccursAt(s, p, 0);
      true
    else
      var b := Contains(s[1..], p);
      assert forall i :: OccursAt(s[1..], p, i) <==> OccursAt(s, p, i + 1) by {
        forall i ensures OccursAt(s[1..], p, i) <==> OccursAt(s, p, i + 1) {
          if 0 <= i && i + |p| <= |s| - 1 {
            assert s[1..][i..i + |p|] == s[i + 1..i + 1 + |p|];
          }
        }
      }
      assert b ==> exists i :: OccursAt(s, p, i) by {
        if b {
          var i :| OccursAt(s[1..], p, i);
          assert OccursAt(s, p, i + 1);
        }
      }
      assert (exists i :: OccursAt(s, p, i)) ==> b by {
        if exists i :: OccursAt(s, p, i) {
          var i :| OccursAt(s, p, i);
          assert i != 0;
          assert OccursAt(s[1..], p, i - 1);
        }
      }
      b
  }

  /** `parts.join(sep)`: the parts with `sep` between neighbours; no parts
      give the empty string. */
  function Join(parts: seq<string>, sep: string): string
    decreases |parts|
  {
    if |parts| == 0 then ""
    else if |parts| == 1 then parts[0]
    else parts[0] + sep + Join(parts[1..], sep)
  }

  /** Where part `i` starts in `Join(parts, sep)`: the lengths of the parts
      before it, each followed by one separator. */
  function Offset(parts: seq<string>, sep: string, i: nat): nat
    requires i <= |parts|
  {
    if i == 0 then 0 else |parts[0]| + |sep| + Offset(parts[1..], sep, i - 1)
  }

  /** Character `j` of part `i` sits at `Offset(i) + j` of `r`. */
  ghost predicate PartCharAt(r: string, parts: seq<string>, sep: string, i: nat, j: nat)
    requires i < |parts| && j < |parts[i]|
  {
    Offset(parts, sep, i) + j < |r| && r[Offset(parts, sep, i) + j] == parts[i][j]
  }

  /** Character `j` of the separator after part `i` sits right after that part. */
  ghost predicate SepCharAfter(r: string, parts: seq<string>, sep: string, i: nat, j: nat)
    requires i < |parts| && j < |sep|
  {
    Offset(parts, sep, i) + |parts[i]| + j < |r| && r[Offset(parts, sep, i) + |parts[i]| + j] == sep[j]
  }

  /** Layout of a joined string: the characters of part `i` sit from
      `Offset(i)` on, each part but the last is followed by one separator,
      and nothing follows the last part. */
  lemma {:induction false} JoinLayout(parts: seq<string>, sep: string)
    requires |parts| > 0
    ensures |Join(parts, sep)| == Offset(parts, sep, |parts| - 1) + |parts[|parts| - 1]|
    ensures forall i: nat, j: nat :: i < |parts| && j < |parts[i]| ==>
      PartCharAt(Join(parts, sep), parts, sep, i, j)
    ensures forall i: nat, j: nat :: i < |parts| - 1 && j < |sep| ==>
      SepCharAfter(Join(parts, sep), parts, sep, i, j)
    decreases |parts|
  {
    var r := Join(parts, sep);
    if |parts| > 1 {
      var tail := parts[1..];
      var t := Join(tail, sep);
      JoinLayout(tail, sep);
      var h := |parts[0]| + |sep|;
      assert r == parts[0] + sep + t;
      forall i: nat, j: nat | i < |parts| && j < |parts[i]|
        ensures PartCharAt(r, parts, sep, i, j)
      {
        if i > 0 {
          assert Offset(parts, sep, i) == h + Offset(tail, sep, i - 1);
          assert parts[i] == tail[i - 1];
          assert PartCharAt(t, tail, sep, i - 1, j);
        }
      }
      forall i: nat, j: nat | i < |parts| - 1 && j < |sep|
        ensures SepCharAfter(r, parts, sep, i, j)
      {
        if i > 0 {
          assert Offset(parts, sep, i) == h + Offset(tail, sep, i - 1);
          assert parts[i] == tail[i - 1];
          assert SepCharAfter(t, tail, sep, i - 1, j);
        }
      }
      assert Offset(parts, sep, |parts| - 1) == h + Offset(tail, sep, |tail| - 1);
    }
  }

  predicate IsDigit(c: char) {
    '0' <= c <= '9'
  }

  function DigitChar(d: nat): (c: char)
    requires d < 10
    ensures IsDigit(c)
  {
    (48 + d) as char
  }

  function DigitValue(c: char): nat
    requires IsDigit(c)
  {
    (c as int - 48) as nat
  }

  /** The decimal text of an unsigned integer, as Rust's `Display` for
      integers: digits only, no sign, no leading zero except for 0 itself. */
  function Decimal(n: nat): (s: string)
    ensures |s| > 0
    ensures forall i :: 0 <= i < |s| ==> IsDigit(s[i])
    ensures s[0] == '0' ==> s == "0"
  {
    if n < 10 then [DigitChar(n)] else Decimal(n / 10) + [DigitChar(n % 10)]
  }

  /** The value a string of decimal digits denotes. */
  function DecimalValue(s: string): nat
    requires forall i :: 0 <= i < |s| ==> IsDigit(s[i])
  {
    if |s| == 0 then 0 else DecimalValue(s[..|s| - 1]) * 10 + DigitValue(s[|s| - 1])
  }

  /** Reading back the decimal text of `n` gives `n`. */
  lemma {:induction false} DecimalRoundTrip(n: nat)
    ensures DecimalValue(Decimal(n)) == n
  {
    var s := Decimal(n);
    if n >= 10 {
      DecimalRoundTrip(n / 10);
      assert s[..|s| - 1] == Decimal(n / 10);
    }
  }

  /** `format!("{:>width$}", s)`: right-aligned, padded on the left with
      spaces up to `width` characters, never truncated. */
  function PadLeft(s: string, width: nat): (r: string)
    ensures |r| == if |s| < width then width else |s|
    ensures r[|r| - |s|..] == s
    ensures forall i :: 0 <= i < |r| - |s| ==> r[i] == ' '
  {
    if |s| < width then Spaces(width - |s|) + s else s
  }

  function Spaces(n: nat): (r: string)
    ensures |r| == n && forall i :: 0 <= i < n ==> r[i] == ' '
  {
    if n == 0 then "" else " " + Spaces(n - 1)
  }

  /** `s` without its leading spaces. */
  function TrimStartSpaces(s: string): string {
    if |s| > 0 && s[0] == ' ' then TrimStartSpaces(s[1..]) else s
  }

  /** Padding is undone by trimming leading spaces, provided the padded text
      did not itself start with a space. */
  lemma {:induction false} TrimUndoesPad(s: string, width: nat)
    requires |s| > 0 ==> s[0] != ' '
    ensures TrimStartSpaces(PadLeft(s, width)) == s
  {
    var r := PadLeft(s, width);
    TrimSpacesPrefix(r, |r| - |s|);
    assert r[|r| - |s|..] == s;
  }

  lemma {:induction false} TrimSpacesPrefix(r: string, k: nat)
    requires k <= |r|
    requires forall i :: 0 <= i < k ==> r[i] == ' '
    requires k < |r| ==> r[k] != ' '
    ensures TrimStartSpaces(r) == r[k..]
    decreases k
  {
    if k > 0 {
      TrimSpacesPrefix(r[1..], k - 1);
      assert r[1..][k - 1..] == r[k..];
    }
  }
}
