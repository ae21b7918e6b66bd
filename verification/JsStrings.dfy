/** What JavaScript takes for white space when it trims a string or matches `\s`. */
module JsStrings {

  predicate IsSpace(c: char) {
    var code := c as int;
    0x09 <= code <= 0x0d || code == 0x20 || code == 0xa0 || code == 0x1680 || 0x2000 <= code <= 0x200a ||
    code == 0x2028 || code == 0x2029 || code == 0x202f || code == 0x205f || code == 0x3000 || code == 0xfeff
  }

  /** The white space of ECMAScript (section 12.2 and 12.3 of ECMA-262), character by character. */
  lemma SpaceCharacters(c: char)
    ensures IsSpace(c) <==>
            || c in "\t\n\U{B}\U{C}\r \U{A0}\U{1680}\U{2000}\U{2001}\U{2002}\U{2003}\U{2004}\U{2005}"
            || c in "\U{2006}\U{2007}\U{2008}\U{2009}\U{200A}"
            || c in "\U{2028}\U{2029}\U{202F}\U{205F}\U{3000}\U{FEFF}"
  {
  }
}
