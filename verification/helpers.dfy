/** `truncateString` of the web client, over strings as sequences of UTF-16
    code units and an integral `maxLength`. */
module Helpers {

  /** `s.substring(0, end)`: `end` is clamped into `[0, |s|]`. */
  function Prefix(s: string, end: int): (r: string)
    ensures |r| == if end < 0 then 0 else if end > |s| then |s| else end
    ensures r == s[..|r|]
  {
    if end < 0 then "" else if end > |s| then s else s[..end]
  }

  const Ellipsis: string := "..."

  /** `truncateString(text, maxLength)`. */
  function TruncateString(text: string, maxLength: int): string {
    if |text| <= maxLength then text else Prefix(text, maxLength) + Ellipsis
  }

  /** Text that fits is returned as it is. */
  lemma ShortTextUnchanged(text: string, maxLength: int)
    requires |text| <= maxLength
    ensures TruncateString(text, maxLength) == text
  {
  }

  /** Longer text keeps its first `maxLength` units and gains "...", so it
      ends up exactly three units longer than the limit. */
  lemma LongTextTruncated(text: string, maxLength: int)
    requires 0 <= maxLength < |text|
    ensures |TruncateString(text, maxLength)| == maxLength + 3
    ensures TruncateString(text, maxLength)[..maxLength] == text[..maxLength]
    ensures TruncateString(text, maxLength)[maxLength..] == Ellipsis
  {
  }

  /** With a negative limit every text becomes "...". */
  lemma NegativeLimit(text: string, maxLength: int)
    requires maxLength < 0
    ensures TruncateString(text, maxLength) == Ellipsis
  {
  }

  /** Truncating twice with the same limit is truncating once. */
  lemma TruncateIdempotent(text: string, maxLength: int)
    ensures TruncateString(TruncateString(text, maxLength), maxLength) == TruncateString(text, maxLength)
  {
    var once := TruncateString(text, maxLength);
    if |text| > maxLength && maxLength >= 0 {
      LongTextTruncated(text, maxLength);
      assert Prefix(once, maxLength) == once[..maxLength];
      assert once[..maxLength] + Ellipsis == once;
    }
  }
}
