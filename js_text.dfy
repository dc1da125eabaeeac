/** The regular-expression character classes the download names are built with, as JavaScript
    defines them for a pattern without the `u` flag. */
module JsText {

  /** `\w`: the ASCII letters, the digits and the underscore (the `i` flag adds nothing). */
  predicate IsWordChar(c: char)
  {
    ('A' <= c <= 'Z') || ('a' <= c <= 'z') || ('0' <= c <= '9') || c == '_'
  }

  /** `\s`: the ASCII whitespace controls, the space, and the Unicode space separators, line and
      paragraph separators and the byte order mark. */
  predicate IsSpace(c: char)
  {
    || ('\U{0009}' <= c <= '\U{000D}') || c == ' ' || c == '\U{00A0}' || c == '\U{1680}'
    || ('\U{2000}' <= c <= '\U{200A}') || c == '\U{2028}' || c == '\U{2029}' || c == '\U{202F}'
    || c == '\U{205F}' || c == '\U{3000}' || c == '\U{FEFF}'
  }
}
