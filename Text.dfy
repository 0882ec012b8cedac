/** Character and string helpers: ASCII letter case, joining and counting. */
module Text {

  predicate IsUpper(c: char) { 'A' <= c <= 'Z' }

  predicate IsLower(c: char) { 'a' <= c <= 'z' }

  predicate IsDigit(c: char) { '0' <= c <= '9' }

  /** Lower-cases an ASCII capital and leaves every other character alone. */
  function ToLower(c: char): char
  {
    if IsUpper(c) then (c as int + 32) as char else c
  }

  /** Upper-cases an ASCII small letter and leaves every other character alone. */
  function ToUpper(c: char): char
  {
    if IsLower(c) then (c as int - 32) as char else c
  }

  /** `str.lower()` restricted to ASCII letters. */
  function Lower(s: string): string
  {
    seq(|s|, i requires 0 <= i < |s| => ToLower(s[i]))
  }

  /** `str.upper()` restricted to ASCII letters. */
  function Upper(s: string): string
  {
    seq(|s|, i requires 0 <= i < |s| => ToUpper(s[i]))
  }

  /** Upper-casing does not see the case a string was written in. */
  lemma UpperOfLower(s: string)
    ensures Upper(Lower(s)) == Upper(s)
  {
    assert forall i :: 0 <= i < |s| ==> ToUpper(ToLower(s[i])) == ToUpper(s[i]);
  }

  /** `sep.join(parts)`: empty for no parts, otherwise it opens with the first part. */
  function Join(parts: seq<string>, sep: string): (r: string)
    ensures parts == [] ==> r == []
    ensures parts != [] ==> |r| >= |parts[0]| && r[..|parts[0]|] == parts[0]
  {
    if parts == [] then ""
    else if |parts| == 1 then parts[0]
    else parts[0] + sep + Join(parts[1..], sep)
  }

  /** A join of several parts closes with the last part, right after a separator. */
  lemma {:induction false} JoinEnds(parts: seq<string>, sep: string)
    requires |parts| > 1
    ensures var r, last := Join(parts, sep), parts[|parts| - 1];
      |r| >= |sep| + |last| && r[|r| - |last| - |sep|..] == sep + last
  {
    var rest := Join(parts[1..], sep);
    assert parts[1..][|parts[1..]| - 1] == parts[|parts| - 1];
    if |parts| > 2 {
      JoinEnds(parts[1..], sep);
    }
    assert Join(parts, sep) == (parts[0] + sep) + rest;
  }

  /** The number of occurrences of `c` in `s`. */
  function Count(c: char, s: string): nat
  {
    if s == [] then 0 else (if s[0] == c then 1 else 0) + Count(c, s[1..])
  }

  lemma {:induction false} CountAppend(c: char, a: string, b: string)
    ensures Count(c, a + b) == Count(c, a) + Count(c, b)
  {
    if a != [] {
      assert (a + b)[1..] == a[1..] + b;
      CountAppend(c, a[1..], b);
    } else {
      assert a + b == b;
    }
  }

  lemma {:induction false} CountAbsent(c: char, s: string)
    requires c !in s
    ensures Count(c, s) == 0
  {
    if s != [] {
      CountAbsent(c, s[1..]);
    }
  }

  /** A string that ends in its only `c` holds one `c`. */
  lemma CountOnlyLast(c: char, prefix: string)
    requires c !in prefix
    ensures Count(c, prefix + [c]) == 1
  {
    CountAppend(c, prefix, [c]);
    CountAbsent(c, prefix);
  }
}
