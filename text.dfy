/**
 Character classes shared by the extractor, the error texts and the reply:
 decimal digits (`\d` and `%d`) and the line feed (`.` in the pattern, line
 breaks in the reply).
 */
module Text {

  /** `\d` is ASCII only, and `%d` writes ASCII digits. */
  predicate IsDigit(c: char) {
    '0' <= c <= '9'
  }

  predicate AllDigits(s: string, lo: int, hi: int)
    requires 0 <= lo <= hi <= |s|
  {
    forall k :: lo <= k < hi ==> IsDigit(s[k])
  }

  /** No line feed in s[lo..hi]; `.` matches every character except a line feed. */
  predicate NoNewline(s: string, lo: int, hi: int)
    requires 0 <= lo <= hi <= |s|
  {
    forall k :: lo <= k < hi ==> s[k] != '\n'
  }
}
