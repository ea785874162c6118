/** Vocabulary shared by every component: optional values, results, machine
    bounds, and text as a sequence of bytes. */
module Common {
  datatype Option<+T> = None | Some(value: T)

  datatype Result<+T, +E> = Ok(value: T) | Err(error: E)

  const U64_MAX: nat := 0xFFFF_FFFF_FFFF_FFFF

  /** Rust guarantees that no allocation, hence no string or vector, is longer. */
  const ISIZE_MAX: nat := 0x7FFF_FFFF_FFFF_FFFF

  /** Text is modelled as its UTF-8 bytes; each byte is written as the character
      with that code, so every offset is a byte offset. */
  type Text = seq<char>

  predicate IsDigit(c: char) { '0' <= c <= '9' }

  predicate IsAlnum(c: char) { IsDigit(c) || 'a' <= c <= 'z' || 'A' <= c <= 'Z' }

  /** A UTF-8 continuation byte (10xxxxxx). */
  predicate IsContinuation(c: char) { 0x80 <= c as int < 0xC0 }

  /** `str::is_char_boundary`. */
  predicate IsBoundary(s: Text, i: int) {
    0 <= i <= |s| && (i < |s| ==> !IsContinuation(s[i]))
  }

  /** The two facts about valid UTF-8 the offset arithmetic relies on: text never
      starts with a continuation byte, and none follows an ASCII byte. */
  ghost predicate Utf8Shaped(s: Text) {
    && IsBoundary(s, 0)
    && forall i :: 0 <= i < |s| && s[i] as int < 0x80 ==> IsBoundary(s, i + 1)
  }

  predicate OccursAt(s: Text, pattern: Text, i: int) {
    0 <= i && i + |pattern| <= |s| && s[i..i + |pattern|] == pattern
  }

  ghost predicate Contains(s: Text, pattern: Text) {
    exists i :: OccursAt(s, pattern, i)
  }

  /** `str::find` on the suffix that starts at `from`, as an absolute offset. */
  function Find(s: Text, pattern: Text, from: nat): (r: Option<nat>)
    requires from <= |s|
    ensures r.Some? ==> from <= r.value && OccursAt(s, pattern, r.value)
    ensures r.Some? ==> forall j :: from <= j < r.value ==> !OccursAt(s, pattern, j)
    ensures r.None? ==> forall j :: from <= j ==> !OccursAt(s, pattern, j)
    decreases |s| - from
  {
    if OccursAt(s, pattern, from) then Some(from)
    else if from == |s| then None
    else Find(s, pattern, from + 1)
  }

  /** Lines, each ended by a newline. */
  function Join(lines: seq<Text>): Text {
    if lines == [] then "" else Join(lines[..|lines| - 1]) + lines[|lines| - 1] + "\n"
  }

  ghost predicate OneLiners(lines: seq<Text>) {
    forall i :: 0 <= i < |lines| ==> '\n' !in lines[i]
  }

  function Min(a: nat, b: nat): nat { if a < b then a else b }

  /** `saturating_add` on 64-bit words. */
  function SaturatingAdd(a: nat, b: nat): nat { if a + b > U64_MAX then U64_MAX else a + b }

  lemma ConcatThree<T>(a: seq<T>, b: seq<T>, c: seq<T>)
    ensures a + b + c == a + (b + c)
  {
  }

  lemma ConcatFour<T>(a: seq<T>, b: seq<T>, c: seq<T>, d: seq<T>)
    ensures a + b + c + d == a + (b + c + d)
  {
  }

  /** The elements at the given positions. */
  function Pick<T>(s: seq<T>, at: seq<nat>): (r: seq<T>)
    requires forall i :: 0 <= i < |at| ==> at[i] < |s|
    ensures |r| == |at| && forall i :: 0 <= i < |at| ==> r[i] == s[at[i]]
  {
    seq(|at|, i requires 0 <= i < |at| => s[at[i]])
  }
}
