/**
 * The text written into a story's NFC tag: the story id wrapped in a fixed
 * frame, `"02190530" + id + "00"` (app/index.tsx, line 31).
 */
module TagPayload {

  const Prefix: string := "02190530"
  const Suffix: string := "00"

  /** True when `text` is wrapped in the tag frame. */
  predicate IsFramed(text: string) {
    |text| >= |Prefix| + |Suffix| &&
    text[..|Prefix|] == Prefix &&
    text[|text| - |Suffix|..] == Suffix
  }

  /** What lies between the prefix and the suffix of a framed text. */
  function Inner(text: string): string
    requires IsFramed(text)
  {
    text[|Prefix|..|text| - |Suffix|]
  }

  /** The tag text built for story `id`: ten characters longer than `id`, framed, and stripping the frame gives `id` back. */
  function TagCode(id: string): (code: string)
    ensures |code| == |id| + 10
    ensures IsFramed(code)
    ensures Inner(code) == id
  {
    Prefix + id + Suffix
  }

  /** Different ids never share a tag text. */
  lemma TagCodeInjective(a: string, b: string)
    requires TagCode(a) == TagCode(b)
    ensures a == b
  {
  }

  /** Conversely, every framed text is the tag text of what it frames. */
  lemma FramedIsTagCode(text: string)
    requires IsFramed(text)
    ensures text == TagCode(Inner(text))
  {
  }

  /** The tag text of story "0007". */
  lemma TagCodeExample()
    ensures TagCode("0007") == "02190530000700"
    ensures |TagCode("0007")| == 14
  {
  }
}
