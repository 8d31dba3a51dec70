/** The few Python string operations the form handlers rely on:
    `str.isspace`/`str.strip`, `str.lower`, `str.replace`, `str.join`,
    and a character count used to match SQL placeholders with parameters. */
module Text {

  /** Python's `str.isspace` for one character: the ASCII controls
      TAB..CR, the separators 0x1C..0x1F, the space, and the Unicode spaces. */
  predicate IsSpace(c: char) {
    || c == ' '
    || ('\t' <= c <= '\r')
    || ('\U{1C}' <= c <= '\U{1F}')
    || c == '\U{85}' || c == '\U{A0}' || c == '\U{1680}'
    || ('\U{2000}' <= c <= '\U{200A}')
    || c == '\U{2028}' || c == '\U{2029}' || c == '\U{202F}'
    || c == '\U{205F}' || c == '\U{3000}'
  }

  /** Every character is white space (the empty string included). */
  predicate Blank(s: string) {
    forall k :: 0 <= k < |s| ==> IsSpace(s[k])
  }

  /** Number of white-space characters at the front of `s`. */
  function LeadingSpaces(s: string): (n: nat)
    ensures n <= |s|
    ensures Blank(s[..n])
    ensures n < |s| ==> !IsSpace(s[n])
  {
    if s != [] && IsSpace(s[0]) then 1 + LeadingSpaces(s[1..]) else 0
  }

  /** Number of white-space characters at the back of `s`. */
  function TrailingSpaces(s: string): (n: nat)
    ensures n <= |s|
    ensures Blank(s[|s| - n..])
    ensures n < |s| ==> !IsSpace(s[|s| - 1 - n])
  {
    if s != [] && IsSpace(s[|s| - 1]) then 1 + TrailingSpaces(s[..|s| - 1]) else 0
  }

  /** `s.strip()`: `s` without its leading and trailing white space; it is
      empty exactly when `s` is blank. */
  function Strip(s: string): (r: string)
    ensures r == [] <==> Blank(s)
  {
    var i := LeadingSpaces(s);
    var rest := s[i..];
    var n := TrailingSpaces(rest);
    assert i < |s| ==> !IsSpace(rest[0]) && n < |rest|;
    assert i == |s| ==> s[..i] == s;
    rest[..|rest| - n]
  }

  /** What `strip` cuts off: the result is a contiguous piece of `s`, only
      white space goes, and the result neither starts nor ends with white
      space. */
  lemma StripTrims(s: string) returns (i: nat)
    ensures i + |Strip(s)| <= |s| && Strip(s) == s[i..i + |Strip(s)|]
    ensures Blank(s[..i]) && Blank(s[i + |Strip(s)|..])
    ensures Strip(s) != [] ==> !IsSpace(Strip(s)[0]) && !IsSpace(Strip(s)[|Strip(s)| - 1])
  {
    i := LeadingSpaces(s);
    var rest := s[i..];
    var j := |rest| - TrailingSpaces(rest);
    assert Strip(s) == rest[..j];
    assert rest[..j] == s[i..i + j];
    assert s[i + j..] == rest[j..];
  }

  /** `c.lower()` for ASCII letters; other characters are kept. */
  function LowerChar(c: char): char {
    if 'A' <= c <= 'Z' then (c as int + ('a' as int - 'A' as int)) as char else c
  }

  /** `key.lower().replace(' ', '_')`, the column name the update handler
      derives from a form key. */
  function ColumnName(key: string): (r: string)
    ensures |r| == |key| && ' ' !in r
    ensures forall i :: 0 <= i < |r| ==> !('A' <= r[i] <= 'Z')
    ensures forall i :: 0 <= i < |key| && key[i] == ' ' ==> r[i] == '_'
    ensures forall i :: 0 <= i < |key| && 'A' <= key[i] <= 'Z' ==> r[i] as int == key[i] as int + 32 && 'a' <= r[i] <= 'z'
    ensures forall i :: 0 <= i < |key| && key[i] != ' ' && !('A' <= key[i] <= 'Z') ==> r[i] == key[i]
  {
    seq(|key|, i requires 0 <= i < |key| => if key[i] == ' ' then '_' else LowerChar(key[i]))
  }

  /** `sep.join(parts)`. */
  function Join(sep: string, parts: seq<string>): string {
    if parts == [] then ""
    else if |parts| == 1 then parts[0]
    else parts[0] + sep + Join(sep, parts[1..])
  }

  /** Number of occurrences of `c` in `s`. */
  function Count(c: char, s: string): nat {
    if s == [] then 0 else (if s[0] == c then 1 else 0) + Count(c, s[1..])
  }

  lemma {:induction false} CountConcat(c: char, a: string, b: string)
    ensures Count(c, a + b) == Count(c, a) + Count(c, b)
  {
    if a == [] {
      assert a + b == b;
    } else {
      assert (a + b)[1..] == a[1..] + b;
      CountConcat(c, a[1..], b);
    }
  }

  lemma {:induction false} CountAbsent(c: char, s: string)
    requires c !in s
    ensures Count(c, s) == 0
  {
    if s != [] {
      assert s[0] in s;
      assert forall x :: x in s[1..] ==> x in s;
      CountAbsent(c, s[1..]);
    }
  }

  /** A string with `c` once and nowhere else. */
  lemma CountOne(c: char, a: string, b: string)
    requires c !in a && c !in b
    ensures Count(c, a + [c] + b) == 1
  {
    CountAbsent(c, a);
    CountAbsent(c, b);
    CountConcat(c, a, [c]);
    CountConcat(c, a + [c], b);
  }

  /** Joining parts that each hold one `c` with a separator holding none
      gives a string with exactly one `c` per part. */
  lemma {:induction false} CountJoin(c: char, sep: string, parts: seq<string>)
    requires c !in sep
    requires forall k :: 0 <= k < |parts| ==> Count(c, parts[k]) == 1
    ensures Count(c, Join(sep, parts)) == |parts|
  {
    if |parts| > 1 {
      CountJoin(c, sep, parts[1..]);
      CountAbsent(c, sep);
      CountConcat(c, parts[0], sep);
      CountConcat(c, parts[0] + sep, Join(sep, parts[1..]));
    }
  }
}
