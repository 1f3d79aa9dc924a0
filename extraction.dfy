/**
 * The text clean-up inside `extractReleaseId` and `extractTracks`. The
 * browser queries that produce the raw `innerText` values are outside the
 * model: their results are the inputs here.
 */
module Extraction {
  import opened Text

  /** The label that precedes the release id on a page. */
  const SeriesLabel: string := "Fugazi Live Series"

  /**
   * The release id from the raw text of `.releaseNumber`: the first
   * `Fugazi Live Series` removed, then trimmed.
   */
  function CleanReleaseId(text: string): (r: string)
    ensures IsTrimmed(r)
    ensures FirstOccurrence(text, SeriesLabel).None? ==> r == Trim(text)
    ensures |r| <= |text|
  {
    Trim(RemoveFirst(text, SeriesLabel))
  }

  /** The usual page text, label, whitespace, id, yields exactly the id. */
  lemma CleanReleaseIdOfLabelledText(gap: string, id: string)
    requires AllWhitespace(gap)
    requires IsTrimmed(id)
    ensures CleanReleaseId(SeriesLabel + gap + id) == id
  {
    assert SeriesLabel + gap + id == SeriesLabel + (gap + id);
    RemoveFirstOfPrefix(SeriesLabel, gap + id);
    TrimAfterWhitespace(gap, id);
  }

  /**
   * The track names: the `innerText` of each `.track_name`, trimmed, in
   * document order, one per match.
   */
  function TrackNames(texts: seq<string>): (names: seq<string>)
    ensures |names| == |texts|
    ensures forall k :: 0 <= k < |texts| ==> names[k] == Trim(texts[k])
  {
    if texts == [] then [] else [Trim(texts[0])] + TrackNames(texts[1..])
  }

  /** Every track name has no leading or trailing whitespace. */
  lemma TrackNamesAreTrimmed(texts: seq<string>)
    ensures forall k :: 0 <= k < |texts| ==> IsTrimmed(TrackNames(texts)[k])
  {
  }

  /** Names of consecutive runs of tracks line up: the order is kept. */
  lemma TrackNamesAppend(front: seq<string>, back: seq<string>)
    ensures TrackNames(front + back) == TrackNames(front) + TrackNames(back)
  {
  }

  /** Extracting names from already clean names changes nothing. */
  lemma TrackNamesIdempotent(texts: seq<string>)
    ensures TrackNames(TrackNames(texts)) == TrackNames(texts)
  {
  }
}
