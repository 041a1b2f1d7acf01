/** Byte strings as the C++ code handles them: characters are bytes, and
    `std::tolower` in the C locale changes the letters A to Z only. */
module Text {

  type U32 = x: int | 0 <= x < 0x1_0000_0000

  datatype Option<+T> = None | Some(value: T)

  function ToLower(c: char): char {
    if 'A' <= c <= 'Z' then (c as int + 32) as char else c
  }

  /** Each capital becomes the small letter at its place in the alphabet, and no
      other character changes. */
  lemma LettersLowered(c: char)
    ensures if 'A' <= c <= 'Z'
            then 'a' <= ToLower(c) <= 'z' && ToLower(c) as int - 'a' as int == c as int - 'A' as int
            else ToLower(c) == c
  {
  }

  /** A string with every character lowered. */
  function Lower(s: string): (r: string)
    ensures |r| == |s| && forall i :: 0 <= i < |s| ==> r[i] == ToLower(s[i])
  {
    seq(|s|, i requires 0 <= i < |s| => ToLower(s[i]))
  }

  predicate EndsWith(s: string, t: string) {
    |t| <= |s| && s[|s| - |t|..] == t
  }
}
