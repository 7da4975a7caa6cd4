/** Character classes of JavaScript that the service relies on. */
module JsText {

  /** White space and line terminators as JavaScript defines them: the
      characters the regular-expression class `\s` matches, which are also the
      characters `parseInt` skips before a numeral. */
  predicate IsJsSpace(c: char)
  {
    || c == '\t' || c == '\n' || c == '\U{B}' || c == '\U{C}' || c == '\r' || c == ' '
    || c == '\U{A0}' || c == '\U{1680}' || ('\U{2000}' <= c <= '\U{200A}')
    || c == '\U{2028}' || c == '\U{2029}' || c == '\U{202F}' || c == '\U{205F}'
    || c == '\U{3000}' || c == '\U{FEFF}'
  }
}
