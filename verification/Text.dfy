/** The text primitives the program takes from its standard library. */
module Text {
  /** Unicode White_Space. */
  predicate IsWhitespace(c: char) {
    var u := c as int;
    9 <= u <= 13 || u in {0x20, 0x85, 0xA0, 0x1680, 0x2028, 0x2029, 0x202F, 0x205F, 0x3000} || 0x2000 <= u <= 0x200A
  }

  /** True when trimming leaves nothing. */
  predicate Blank(s: string) {
    forall i :: 0 <= i < |s| ==> IsWhitespace(s[i])
  }
}
