/** `translate_text`: the HTML is turned into plain text, cut into
    fixed-width pieces when long, each piece translated in order, and the
    translations joined by a blank line. The HTML-to-text converter and the
    translator are outside the model and enter as functions; None stands for
    an exception they raise. */
module Translation {
  import opened Basics

  /** `max_chunk_size` */
  const MaxChunkSize: int := 4000

  const PartSeparator: string := "\n\n"

  function Concat(parts: seq<string>): string {
    if |parts| == 0 then [] else parts[0] + Concat(parts[1..])
  }

  /** `sep.join(parts)` */
  function Join(parts: seq<string>, sep: string): string {
    if |parts| == 0 then []
    else if |parts| == 1 then parts[0]
    else parts[0] + sep + Join(parts[1..], sep)
  }

  /** `[s[i:i + 4000] for i in range(0, len(s), 4000)]`: consecutive slices
      that give s back, none empty, none longer than the limit and all but
      the last exactly that long. */
  function Chunks(s: string): (r: seq<string>)
    ensures Concat(r) == s
    ensures r == [] <==> s == []
    ensures forall i :: 0 <= i < |r| ==> 0 < |r[i]| <= MaxChunkSize
    ensures forall i :: 0 <= i < |r| - 1 ==> |r[i]| == MaxChunkSize
    decreases |s|
  {
    if |s| == 0 then []
    else if |s| <= MaxChunkSize then [s]
    else
      var rest := Chunks(s[MaxChunkSize..]);
      assert s == s[..MaxChunkSize] + s[MaxChunkSize..];
      assert ([s[..MaxChunkSize]] + rest)[1..] == rest;
      [s[..MaxChunkSize]] + rest
  }

  function Min(a: int, b: int): int {
    if a <= b then a else b
  }

  /** There are ceil(|s| / 4000) pieces. */
  lemma {:induction false} ChunkCount(s: string)
    ensures |Chunks(s)| == (|s| + MaxChunkSize - 1) / MaxChunkSize
    decreases |s|
  {
    if |s| > MaxChunkSize {
      ChunkCount(s[MaxChunkSize..]);
      assert (|s| - 4000 + 3999) / 4000 + 1 == (|s| + 3999) / 4000;
    }
  }

  /** Piece k is the slice starting at k * 4000, as the comprehension reads it. */
  lemma {:induction false} ChunkAt(s: string, k: int)
    requires 0 <= k < |Chunks(s)|
    ensures k * MaxChunkSize < |s| && Chunks(s)[k] == s[k * MaxChunkSize..Min((k + 1) * MaxChunkSize, |s|)]
    decreases |s|
  {
    if k > 0 {
      var tail := s[MaxChunkSize..];
      ChunksOfLong(s);
      ChunkAt(tail, k - 1);
      SliceOfTail(s, k);
    }
  }

  /** More than one piece means a long text, whose pieces after the first are the tail's. */
  lemma ChunksOfLong(s: string)
    requires |Chunks(s)| > 1
    ensures |s| > MaxChunkSize && Chunks(s) == [s[..MaxChunkSize]] + Chunks(s[MaxChunkSize..])
  {
  }

  lemma SliceOfTail(s: string, k: int)
    requires 0 < k && MaxChunkSize < |s| && (k - 1) * MaxChunkSize < |s| - MaxChunkSize
    ensures var tail := s[MaxChunkSize..];
            k * MaxChunkSize < |s|
            && tail[(k - 1) * MaxChunkSize..Min(k * MaxChunkSize, |tail|)]
               == s[k * MaxChunkSize..Min((k + 1) * MaxChunkSize, |s|)]
  {
    assert k * 4000 == (k - 1) * 4000 + 4000 && (k + 1) * 4000 == k * 4000 + 4000;
  }

  /** Each piece through the translator in order; None as soon as one call fails. */
  function TranslateAll(chunks: seq<string>, translate: string -> Option<string>): (r: Option<seq<string>>)
    ensures r.Some? <==> forall i :: 0 <= i < |chunks| ==> translate(chunks[i]).Some?
    ensures r.Some? ==> |r.value| == |chunks|
                        && forall i :: 0 <= i < |chunks| ==> r.value[i] == translate(chunks[i]).value
    decreases |chunks|
  {
    if |chunks| == 0 then Some([])
    else match translate(chunks[0])
      case None => None
      case Some(first) =>
        match TranslateAll(chunks[1..], translate)
        case None => None
        case Some(rest) =>
          assert forall i :: 1 <= i < |chunks| ==> chunks[i] == chunks[1..][i - 1];
          Some([first] + rest)
  }

  /** `translate_text(text)`: the empty text gives the empty string, and any
      failure gives the original text back. */
  function TranslateText(text: string, toPlain: string -> Option<string>, translate: string -> Option<string>): (r: string)
    ensures text == [] ==> r == []
    ensures text != [] && toPlain(text).None? ==> r == text
    ensures text != [] && toPlain(text).Some? && |toPlain(text).value| <= MaxChunkSize ==>
              r == (if translate(toPlain(text).value).Some? then translate(toPlain(text).value).value else text)
  {
    if text == [] then []
    else match toPlain(text)
      case None => text
      case Some(plain) =>
        if |plain| > MaxChunkSize then
          match TranslateAll(Chunks(plain), translate)
          case None => text
          case Some(parts) => Join(parts, PartSeparator)
        else
          match translate(plain)
          case None => text
          case Some(translated) => translated
  }

  /** One rule covers short and long text alike: the plain text is cut into
      pieces, every piece is translated in order and the translations are
      joined by a blank line, unless a call fails. (A short text is its own
      single piece.) */
  lemma TranslateTextByPieces(text: string, toPlain: string -> Option<string>, translate: string -> Option<string>)
    requires text != [] && toPlain(text).Some? && toPlain(text).value != []
    ensures var pieces := TranslateAll(Chunks(toPlain(text).value), translate);
            TranslateText(text, toPlain, translate) == if pieces.None? then text else Join(pieces.value, PartSeparator)
  {
    var plain := toPlain(text).value;
    if |plain| <= MaxChunkSize {
      assert Chunks(plain) == [plain];
      assert Chunks(plain)[0] == plain;
    }
  }

  /** A long text is translated piece by piece: the result holds the
      translations of the slices in slice order, separated by blank lines. */
  lemma LongTextJoinsSlices(text: string, toPlain: string -> Option<string>, translate: string -> Option<string>)
    requires text != [] && toPlain(text).Some? && |toPlain(text).value| > MaxChunkSize
    requires forall c :: c in Chunks(toPlain(text).value) ==> translate(c).Some?
    ensures var cs := Chunks(toPlain(text).value);
            |cs| >= 2 &&
            TranslateText(text, toPlain, translate)
              == Join(seq(|cs|, i requires 0 <= i < |cs| => translate(cs[i]).value), PartSeparator)
  {
    var cs := Chunks(toPlain(text).value);
    var parts := TranslateAll(cs, translate).value;
    assert parts == seq(|cs|, i requires 0 <= i < |cs| => translate(cs[i]).value);
    assert |cs[0]| == MaxChunkSize;
  }
}
