/**
 * The template string parseSVG makes of one icon (tasks/saxicon.js lines 51
 * and 54): the serialised markup gets its double quotes turned into single
 * quotes, is percent-encoded, gets the data-URI prefix and is cut at every
 * colour marker. The markup is taken as the text the XML builder produced.
 */
module Template {
  import opened JsStrings
  import opened Escape

  /** The data-URI prefix (line 15). */
  const Prefix := "data:image/svg+xml,"

  /** The colour marker the template is cut at (line 16). */
  const ColorKey := "__saxicon__"

  /** What `.replace(/"/g, '\'')` puts in place of `c`. */
  function QuoteSwap(c: char): string
  {
    if c == '"' then "'" else [c]
  }

  /** `built.replace(/"/g, '\'')` (line 51). */
  function SwapQuotes(built: string): (swapped: string)
    ensures |swapped| == |built|
  {
    MapChars(QuoteSwap, built)
  }

  /** Quote swap then percent-encoding: what one piece of markup becomes. */
  function Encode(text: string): (encoded: string)
    ensures |encoded| >= |text|
  {
    EscapeText(SwapQuotes(text))
  }

  /** The `svg` field parseSVG returns for builder output `built` (line 54). */
  function EncodeTemplate(built: string): (segments: seq<string>)
    ensures |segments| >= 1
  {
    Split(Prefix + Encode(built), ColorKey)
  }

  // ---------------------------------------------------------------------
  // properties

  /** The quote swap turns every '"' into '\'' and leaves every other character where it was. */
  lemma {:induction false} SwapQuotesSpec(built: string)
    ensures |SwapQuotes(built)| == |built|
    ensures forall k :: 0 <= k < |built| ==>
              SwapQuotes(built)[k] == if built[k] == '"' then '\'' else built[k]
    ensures '"' !in SwapQuotes(built)
    decreases |built|
  {
    if built != [] {
      SwapQuotesSpec(built[1..]);
      var rest := SwapQuotes(built[1..]);
      assert SwapQuotes(built) == QuoteSwap(built[0]) + rest;
      forall k | 0 <= k < |built|
        ensures SwapQuotes(built)[k] == if built[k] == '"' then '\'' else built[k]
      {
        if k > 0 {
          assert SwapQuotes(built)[k] == rest[k - 1];
        }
      }
    }
  }

  lemma {:induction false} QuoteSwapTransparent()
    ensures Transparent(QuoteSwap, ColorKey)
  {
  }

  /** No character of an escape sequence occurs in the marker. */
  lemma {:induction false} EscapeSyntaxOutsideKey(d: char)
    requires IsEscapeSyntax(d)
    ensures d !in ColorKey
  {
  }

  lemma {:induction false} EncodeCharTransparent()
    ensures Transparent(EncodeChar, ColorKey)
  {
    forall c | c in ColorKey ensures EncodeChar(c) == [c] {
      assert IsSafe(c);
    }
    forall c ensures EncodeChar(c) == [c] || (EncodeChar(c) != [] && forall d :: d in EncodeChar(c) ==> d !in ColorKey) {
      EncodeCharShape(c);
      if !IsSafe(c) {
        forall d | d in EncodeChar(c) ensures d !in ColorKey {
          EscapeSyntaxOutsideKey(d);
        }
      }
    }
  }

  /** Swapping quotes neither creates nor breaks a marker. */
  lemma {:induction false} SplitSwapped(s: string)
    ensures |Split(SwapQuotes(s), ColorKey)| == |Split(s, ColorKey)|
    ensures forall k :: 0 <= k < |Split(s, ColorKey)| ==>
              Split(SwapQuotes(s), ColorKey)[k] == SwapQuotes(Split(s, ColorKey)[k])
  {
    QuoteSwapTransparent();
    SplitMapChars(QuoteSwap, s, ColorKey);
  }

  /** Escaping neither creates nor breaks a marker. */
  lemma {:induction false} SplitEscaped(s: string)
    ensures |Split(EscapeText(s), ColorKey)| == |Split(s, ColorKey)|
    ensures forall k :: 0 <= k < |Split(s, ColorKey)| ==>
              Split(EscapeText(s), ColorKey)[k] == EscapeText(Split(s, ColorKey)[k])
  {
    EncodeCharTransparent();
    SplitMapChars(EncodeChar, s, ColorKey);
  }

  /** The prefix is attached to the first piece and changes no other. */
  lemma {:induction false} SplitPrefixed(x: string)
    ensures |Split(Prefix + x, ColorKey)| == |Split(x, ColorKey)|
    ensures Split(Prefix + x, ColorKey)[0] == Prefix + Split(x, ColorKey)[0]
    ensures forall k :: 1 <= k < |Split(x, ColorKey)| ==> Split(Prefix + x, ColorKey)[k] == Split(x, ColorKey)[k]
  {
    PrefixHasNoMarkerStart();
    SplitAfterPrefixPieces(Prefix, x, ColorKey);
  }

  /** The prefix has no '_', so no marker can start inside it. */
  lemma {:induction false} PrefixHasNoMarkerStart()
    ensures forall k :: 0 <= k < |Prefix| ==> Prefix[k] != ColorKey[0]
  {
  }

  /**
   * The template is the builder output cut at its markers, each piece
   * encoded, with the prefix in front of the first piece.
   */
  lemma {:induction false} TemplatePieces(built: string)
    ensures var pieces := Split(built, ColorKey);
            && |EncodeTemplate(built)| == |pieces|
            && EncodeTemplate(built)[0] == Prefix + Encode(pieces[0])
            && forall k :: 1 <= k < |pieces| ==> EncodeTemplate(built)[k] == Encode(pieces[k])
  {
    var pieces := Split(built, ColorKey);
    var swapped := SwapQuotes(built);
    var swappedPieces := Split(swapped, ColorKey);
    var encodedPieces := Split(EscapeText(swapped), ColorKey);
    SplitSwapped(built);
    SplitEscaped(swapped);
    SplitPrefixed(EscapeText(swapped));
    var segments := EncodeTemplate(built);
    assert segments == Split(Prefix + EscapeText(swapped), ColorKey);
    forall k | 0 <= k < |pieces| ensures encodedPieces[k] == Encode(pieces[k]) {
      assert swappedPieces[k] == SwapQuotes(pieces[k]);
      assert encodedPieces[k] == EscapeText(swappedPieces[k]);
    }
  }

  /** The template has one segment more than the markup has markers. */
  lemma {:induction false} SegmentCount(built: string)
    ensures |EncodeTemplate(built)| == Occurrences(built, ColorKey) + 1
    ensures |EncodeTemplate(built)| == Occurrences(SwapQuotes(built), ColorKey) + 1
  {
    TemplatePieces(built);
    SplitCount(built, ColorKey);
    SplitSwapped(built);
    SplitCount(SwapQuotes(built), ColorKey);
  }

  /** Joining the segments with the marker gives back the prefixed, encoded markup. */
  lemma {:induction false} JoinSegments(built: string)
    ensures Join(EncodeTemplate(built), ColorKey) == Prefix + Encode(built)
  {
    JoinSplit(Prefix + Encode(built), ColorKey);
  }

  /** The first segment starts with the data-URI prefix. */
  lemma {:induction false} FirstSegmentPrefix(built: string)
    ensures StartsWith(EncodeTemplate(built)[0], Prefix)
  {
    TemplatePieces(built);
    var first := Encode(Split(built, ColorKey)[0]);
    assert (Prefix + first)[..|Prefix|] == Prefix;
  }

  /** Escaped text holds no double quote. */
  lemma NoQuoteEscaped(x: string)
    requires forall d :: d in x ==> InEscapedAlphabet(d)
    ensures '"' !in x
  {
    assert !InEscapedAlphabet('"');
  }

  /** The prefix followed by escaped text holds no double quote. */
  lemma NoQuoteAfterPrefix(x: string)
    requires forall d :: d in x ==> InEscapedAlphabet(d)
    ensures '"' !in Prefix + x
  {
    NoQuoteEscaped(x);
    assert '"' !in Prefix;
  }

  /**
   * No segment holds a marker; after the prefix every character is a safe
   * character, '%' or one of "@*+/", so no segment holds a double quote.
   */
  lemma {:induction false} SegmentsAlphabet(built: string)
    ensures forall k :: 0 <= k < |EncodeTemplate(built)| ==> Free(EncodeTemplate(built)[k], ColorKey)
    ensures StartsWith(EncodeTemplate(built)[0], Prefix)
    ensures forall d :: d in EncodeTemplate(built)[0][|Prefix|..] ==> InEscapedAlphabet(d)
    ensures forall k, d :: 1 <= k < |EncodeTemplate(built)| && d in EncodeTemplate(built)[k] ==> InEscapedAlphabet(d)
    ensures forall k :: 0 <= k < |EncodeTemplate(built)| ==> '"' !in EncodeTemplate(built)[k]
  {
    var segments := EncodeTemplate(built);
    var pieces := Split(built, ColorKey);
    assert forall k :: 0 <= k < |segments| ==> Free(segments[k], ColorKey) by {
      SplitPiecesFree(Prefix + Encode(built), ColorKey);
    }
    FirstSegmentPrefix(built);
    TemplatePieces(built);
    var tail0 := segments[0][|Prefix|..];
    assert forall d :: d in tail0 ==> InEscapedAlphabet(d) by {
      assert tail0 == Encode(pieces[0]);
      EscapeTextAlphabet(SwapQuotes(pieces[0]));
    }
    forall k | 1 <= k < |segments| ensures forall d :: d in segments[k] ==> InEscapedAlphabet(d) {
      EscapeTextAlphabet(SwapQuotes(pieces[k]));
    }
    forall k | 0 <= k < |segments| ensures '"' !in segments[k] {
      EscapeTextAlphabet(SwapQuotes(pieces[k]));
      if k == 0 {
        NoQuoteAfterPrefix(Encode(pieces[0]));
      } else {
        NoQuoteEscaped(segments[k]);
      }
    }
  }


  /** Decoding what follows the prefix gives back the quote-swapped markup. */
  lemma {:induction false} DecodeTemplate(built: string)
    ensures StartsWith(Join(EncodeTemplate(built), ColorKey), Prefix)
    ensures Decode(Join(EncodeTemplate(built), ColorKey)[|Prefix|..]) == SwapQuotes(built)
  {
    JoinSegments(built);
    assert (Prefix + Encode(built))[|Prefix|..] == Encode(built);
    DecodeEscapeText(SwapQuotes(built));
  }
}
