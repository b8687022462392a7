/** Rust's `{:?}` (Debug) rendering of a `String`: the text between double
    quotes, each character escaped as `char::escape_debug` does for a string
    (single quotes are left alone). */
module RustFmt {
  import opened Utf8

  /** The characters Debug writes as a backslash escape: the named escapes and
      the other ASCII control characters, which it does not count as
      printable. */
  predicate NeedsEscape(c: char) {
    c < ' ' || c == '\\' || c == '"' || c as int == 0x7F
  }

  function HexDigit(d: nat): (c: char)
    requires d < 16
    ensures c != '\0'
  {
    "0123456789abcdef"[d]
  }

  /** `v` in lower-case hexadecimal without leading zeros. */
  function Hex(v: nat): (s: string)
    ensures |s| >= 1 && '\0' !in s
  {
    if v < 16 then [HexDigit(v)] else Hex(v / 16) + [HexDigit(v % 16)]
  }

  /** The Debug escape of one character of a string. */
  function EscapeChar(c: char): (s: string)
    ensures '\0' !in s
    ensures NeedsEscape(c) <==> s != [c]
  {
    if c == '\0' then "\\0"
    else if c == '\t' then "\\t"
    else if c == '\r' then "\\r"
    else if c == '\n' then "\\n"
    else if c == '\\' then "\\\\"
    else if c == '"' then "\\\""
    else if NeedsEscape(c) then "\\u{" + Hex(c as int) + "}"
    else [c]
  }

  /** The Debug escape of a whole string, character by character. */
  function EscapeDebug(s: string): (r: string)
    ensures '\0' !in r
    ensures Plain(s) ==> r == s
  {
    if s == "" then "" else EscapeChar(s[0]) + EscapeDebug(s[1..])
  }

  lemma {:induction false} EscapeDebugConcat(s: string, t: string)
    ensures EscapeDebug(s + t) == EscapeDebug(s) + EscapeDebug(t)
    decreases |s|
  {
    if s == "" {
      assert s + t == t;
    } else {
      assert (s + t)[0] == s[0];
      assert (s + t)[1..] == s[1..] + t;
      EscapeDebugConcat(s[1..], t);
    }
  }

  /** `format!("{:?}", s)` as text. */
  function DebugText(s: string): (r: string)
    ensures '\0' !in r
    ensures |r| >= 2 && r[0] == '"' && r[|r| - 1] == '"'
  {
    "\"" + EscapeDebug(s) + "\""
  }

  /** Text Debug writes unchanged. */
  predicate Plain(s: string) {
    forall i :: 0 <= i < |s| ==> !NeedsEscape(s[i])
  }

  /** Debug of text between plain delimiters escapes only what lies between. */
  lemma DebugTextQuoted(pre: string, s: string, post: string)
    requires Plain(pre) && Plain(post)
    ensures DebugText(pre + s + post) == "\"" + (pre + EscapeDebug(s) + post) + "\""
  {
    EscapeDebugConcat(pre + s, post);
    EscapeDebugConcat(pre, s);
  }
}
