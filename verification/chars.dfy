/** The JavaScript character classes the shell's regular expressions use. */
module Chars {

  /** The regular-expression class `\s`: ECMAScript WhiteSpace and
      LineTerminator code points. `String.prototype.trim` strips the same set. */
  predicate IsSpace(c: char)
  {
    || c == '\t' || c == '\n' || c == '\U{000B}' || c == '\U{000C}' || c == '\r'
    || c == ' ' || c == '\U{00A0}' || c == '\U{1680}'
    || ('\U{2000}' <= c <= '\U{200A}')
    || c == '\U{2028}' || c == '\U{2029}' || c == '\U{202F}' || c == '\U{205F}'
    || c == '\U{3000}' || c == '\U{FEFF}'
  }

  /** The regular-expression class `\w`: `[A-Za-z0-9_]`. Its complement is `\W`. */
  predicate IsWord(c: char)
  {
    ('a' <= c <= 'z') || ('A' <= c <= 'Z') || ('0' <= c <= '9') || c == '_'
  }

  /** The class `[a-zA-Z_$]` that may start a binder name. */
  predicate IsIdentStart(c: char)
  {
    ('a' <= c <= 'z') || ('A' <= c <= 'Z') || c == '_' || c == '$'
  }

  /** The class `[0-9a-zA-Z_$]` that may continue a binder name. */
  predicate IsIdentPart(c: char)
  {
    IsIdentStart(c) || ('0' <= c <= '9')
  }
}
