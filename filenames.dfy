/** The name under which an uploaded thumbnail or avatar is stored: the original name's
    text before the first dot, the uniqueness token, a dot, and the text after the last dot. */
module FileNames {
  import opened Text

  /** `split('.')[0] + token + "." + split('.')[length - 1]` on the uploaded file's name. */
  function UploadName(original: string, token: string): (name: string)
    ensures exists base, extension :: IsFirstSegment(base, original) && IsLastSegment(extension, original) &&
                                     name == base + token + "." + extension
  {
    var parts := Split(original);
    SplitSegments(original);
    parts[0] + token + "." + parts[|parts| - 1]
  }

  /** The stored name is the text before the first dot, the token, a dot and the text
      after the last dot, for any description of those two texts. */
  lemma UploadNameShape(original: string, token: string, base: string, extension: string)
    requires IsFirstSegment(base, original)
    requires IsLastSegment(extension, original)
    ensures UploadName(original, token) == base + token + "." + extension
  {
    var parts := Split(original);
    SplitSegments(original);
    FirstSegmentUnique(parts[0], base, original);
    LastSegmentUnique(parts[|parts| - 1], extension, original);
  }

  /** A name without a dot is its own first and last segment. */
  lemma UploadNameWithoutDot(original: string, token: string)
    requires '.' !in original
    ensures UploadName(original, token) == original + token + "." + original
  {
    UploadNameShape(original, token, original, original);
  }

  /** Two tokens of the same length (uuid v4 strings all have 36 characters) that differ
      give different stored names for the same original name. */
  lemma UploadNameSeparatesTokens(original: string, token1: string, token2: string)
    requires |token1| == |token2| && token1 != token2
    ensures UploadName(original, token1) != UploadName(original, token2)
  {
    var parts := Split(original);
    var h, t := parts[0], parts[|parts| - 1];
    var n1, n2 := UploadName(original, token1), UploadName(original, token2);
    assert n1[|h|..|h| + |token1|] == token1;
    assert n2[|h|..|h| + |token2|] == token2;
  }
}
