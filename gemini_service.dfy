/**
 * The client side of the hosted image service (services/geminiService.ts):
 * decoding a data URL into an image payload, the style fragments and the
 * prompt template of a generation request, the shape of the two requests,
 * and the extraction of a renderable data URL from the two kinds of
 * response. The network calls themselves are not modelled: a response is
 * an input of the functions that read it.
 */
module GeminiService {
  import opened Wrappers

  // ---------------------------------------------------------------------
  // Searching and splitting strings
  // ---------------------------------------------------------------------

  /** The index of the first `c` in `s`, or `|s|` when `s` has none. */
  function IndexOf(s: string, c: char): (k: nat)
    ensures k <= |s|
    ensures forall i :: 0 <= i < k ==> s[i] != c
    ensures k < |s| ==> s[k] == c
  {
    if s == [] then 0 else if s[0] == c then 0 else 1 + IndexOf(s[1..], c)
  }

  /** The pieces joined back with `c` between them: the inverse of Split. */
  function Join(pieces: seq<string>, c: char): string
  {
    if |pieces| == 0 then ""
    else if |pieces| == 1 then pieces[0]
    else pieces[0] + [c] + Join(pieces[1..], c)
  }

  /** JavaScript's `s.split(c)` for a one-character separator. */
  function Split(s: string, c: char): (pieces: seq<string>)
    ensures |pieces| >= 1
    ensures forall j :: 0 <= j < |pieces| ==> c !in pieces[j]
    ensures Join(pieces, c) == s
    ensures pieces[0] == s[..IndexOf(s, c)]
    ensures |pieces| == 1 <==> c !in s
    decreases |s|
  {
    var k := IndexOf(s, c);
    if k == |s| then [s]
    else
      assert s == s[..k] + [c] + s[k + 1..];
      [s[..k]] + Split(s[k + 1..], c)
  }

  // ---------------------------------------------------------------------
  // The regular expression /:(.*?);/ of fileToBase64
  // ---------------------------------------------------------------------

  /** The characters that JavaScript's `.` does not match. */
  predicate IsLineTerminator(ch: char)
  {
    ch == '\n' || ch == '\r' || ch == '\U{2028}' || ch == '\U{2029}'
  }

  /** The `;` at `e` ends a lazy `.*?;` that starts at `j`: it is the first
      `;` from `j` on, and no line terminator comes before it. */
  predicate Closes(h: string, j: nat, e: nat)
  {
    j <= e < |h| && h[e] == ';' &&
    forall k :: j <= k < e ==> h[k] != ';' && !IsLineTerminator(h[k])
  }

  /** The regex `:(.*?);` matches `h` with its `:` at `i` and its `;` at `e`. */
  predicate MatchesAt(h: string, i: nat, e: nat)
  {
    i < |h| && h[i] == ':' && Closes(h, i + 1, e)
  }

  /** The match that `String.prototype.match` reports: the one whose `:`
      is leftmost. */
  ghost predicate IsLeftmostMatch(h: string, i: nat, e: nat)
  {
    MatchesAt(h, i, e) && forall i': nat, e': nat :: i' < i ==> !MatchesAt(h, i', e')
  }

  lemma ClosesUnique(h: string, j: nat, e1: nat, e2: nat)
    requires Closes(h, j, e1) && Closes(h, j, e2)
    ensures e1 == e2
  {
  }

  /** The lazy scan for the `;` that closes a match begun at `j`. */
  function SemicolonFrom(h: string, j: nat): (r: Option<nat>)
    requires j <= |h|
    ensures r.Some? ==> Closes(h, j, r.value)
    ensures r.None? ==> forall e: nat :: !Closes(h, j, e)
    decreases |h| - j
  {
    if j == |h| then None
    else if h[j] == ';' then Some(j)
    else if IsLineTerminator(h[j]) then None
    else
      var r := SemicolonFrom(h, j + 1);
      assert forall e: nat :: Closes(h, j, e) ==> Closes(h, j + 1, e);
      r
  }

  /** The regex engine's search: the first position at or after `from`
      where `:(.*?);` matches, with the position of the closing `;`. */
  function FindMatch(h: string, from: nat): (r: Option<(nat, nat)>)
    requires from <= |h|
    ensures r.Some? ==> from <= r.value.0 && MatchesAt(h, r.value.0, r.value.1)
    ensures r.Some? ==> forall i: nat, e: nat :: from <= i < r.value.0 ==> !MatchesAt(h, i, e)
    ensures r.None? ==> forall i: nat, e: nat :: from <= i ==> !MatchesAt(h, i, e)
    decreases |h| - from
  {
    if from == |h| then None
    else if h[from] == ':' && SemicolonFrom(h, from + 1).Some? then
      Some((from, SemicolonFrom(h, from + 1).value))
    else
      FindMatch(h, from + 1)
  }

  /** The fallback MIME type of fileToBase64. */
  const OctetStream := "application/octet-stream"

  /** `header.match(/:(.*?);/)?.[1] || 'application/octet-stream'`: the
      captured text of the leftmost match, unless there is no match or the
      capture is empty, which `||` treats as false. */
  function MimeTypeOf(header: string): (m: string)
    ensures m != ""
    ensures (forall i: nat, e: nat :: !MatchesAt(header, i, e)) ==> m == OctetStream
    ensures forall i: nat, e: nat :: IsLeftmostMatch(header, i, e) ==>
              m == if e == i + 1 then OctetStream else header[i + 1..e]
  {
    match FindMatch(header, 0)
    case None => OctetStream
    case Some((i, e)) =>
      assert IsLeftmostMatch(header, i, e);
      assert forall i': nat, e': nat :: IsLeftmostMatch(header, i', e') ==> i' == i && e' == e by {
        forall i': nat, e': nat | IsLeftmostMatch(header, i', e') ensures i' == i && e' == e {
          assert i' == i;
          ClosesUnique(header, i + 1, e, e');
        }
      }
      if e == i + 1 then OctetStream else header[i + 1..e]
  }

  /** With no line terminator between them, the first `:` and the first
      `;` after it form the leftmost match. */
  lemma FirstColonMatches(header: string, i: nat, e: nat)
    requires forall k :: 0 <= k < |header| ==> !IsLineTerminator(header[k])
    requires i == IndexOf(header, ':') < |header|
    requires e == i + 1 + IndexOf(header[i + 1..], ';') < |header|
    ensures IsLeftmostMatch(header, i, e)
  {
    var tail := header[i + 1..];
    assert forall k :: i + 1 <= k < e ==> header[k] == tail[k - (i + 1)];
    assert header[e] == tail[e - (i + 1)];
    assert Closes(header, i + 1, e);
    forall i': nat, e': nat | i' < i ensures !MatchesAt(header, i', e') {
      assert header[i'] != ':';
    }
  }

  /** With no `;` after the first `:`, nothing matches. */
  lemma NoSemicolonAfterColon(header: string, i: nat)
    requires i == IndexOf(header, ':') < |header|
    requires ';' !in header[i + 1..]
    ensures forall i': nat, e': nat :: !MatchesAt(header, i', e')
  {
    forall i': nat, e': nat ensures !MatchesAt(header, i', e') {
      if i' < |header| && header[i'] == ':' && i' + 1 <= e' < |header| {
        assert header[e'] == header[i + 1..][e' - (i + 1)];
      }
    }
  }

  /** MimeTypeOf's own clause for one match, as a lemma that callers can
      invoke without bringing its other quantified clauses into scope:
      it keeps the proofs that use it cheap. */
  lemma MimeOfLeftmostMatch(header: string, i: nat, e: nat)
    requires IsLeftmostMatch(header, i, e)
    ensures MimeTypeOf(header) == if e == i + 1 then OctetStream else header[i + 1..e]
  {
  }

  /** MimeTypeOf's no-match clause, stated apart for the same reason. */
  lemma MimeOfNoMatch(header: string)
    requires forall i': nat, e': nat :: !MatchesAt(header, i', e')
    ensures MimeTypeOf(header) == OctetStream
  {
  }

  lemma MimeWithColonAndSemicolon(header: string, i: nat, e: nat)
    requires forall k :: 0 <= k < |header| ==> !IsLineTerminator(header[k])
    requires i == IndexOf(header, ':') < |header|
    requires e == i + 1 + IndexOf(header[i + 1..], ';') < |header|
    ensures MimeTypeOf(header) == if i + 1 < e then header[i + 1..e] else OctetStream
  {
    FirstColonMatches(header, i, e);
    MimeOfLeftmostMatch(header, i, e);
  }

  lemma MimeWithoutSemicolon(header: string, i: nat)
    requires i == IndexOf(header, ':') < |header|
    requires i + 1 + IndexOf(header[i + 1..], ';') == |header|
    ensures MimeTypeOf(header) == OctetStream
  {
    NoSemicolonAfterColon(header, i);
    MimeOfNoMatch(header);
  }

  lemma MimeWithoutColon(header: string)
    requires IndexOf(header, ':') == |header|
    ensures MimeTypeOf(header) == OctetStream
  {
    assert forall i': nat, e': nat :: !MatchesAt(header, i', e');
    MimeOfNoMatch(header);
  }

  /** The position of the first `:` of a header (its length when absent). */
  function ColonPos(header: string): nat
  {
    IndexOf(header, ':')
  }

  /** The position of the first `;` after that `:` (the header's length
      when there is none). */
  function SemicolonPos(header: string): nat
    requires ColonPos(header) < |header|
  {
    ColonPos(header) + 1 + IndexOf(header[ColonPos(header) + 1..], ';')
  }

  /** On a header without line terminators the capture is the text between
      the first `:` and the first `;` after it. */
  lemma MimeTypeFirstColonNextSemicolon(header: string)
    requires forall k :: 0 <= k < |header| ==> !IsLineTerminator(header[k])
    ensures MimeTypeOf(header) ==
              if ColonPos(header) < |header| && SemicolonPos(header) < |header| &&
                 ColonPos(header) + 1 < SemicolonPos(header)
              then header[ColonPos(header) + 1..SemicolonPos(header)]
              else OctetStream
  {
    var i := ColonPos(header);
    if i == |header| {
      MimeWithoutColon(header);
    } else if SemicolonPos(header) == |header| {
      MimeWithoutSemicolon(header, i);
    } else {
      MimeWithColonAndSemicolon(header, i, SemicolonPos(header));
    }
  }

  // ---------------------------------------------------------------------
  // fileToBase64's result and the data URLs the two calls build
  // ---------------------------------------------------------------------

  /** The payload fileToBase64 resolves with. `data` is None where
      JavaScript would give `undefined`: the data URL has no comma. */
  datatype ImageData = ImageData(mimeType: string, data: Option<string>, dataUrl: string)

  /** The `onload` handler of fileToBase64: split at the commas, take the
      first piece as the header and the second as the data. */
  function ParseDataUrl(dataUrl: string): (r: ImageData)
    ensures r.dataUrl == dataUrl
    ensures r.mimeType == MimeTypeOf(dataUrl[..IndexOf(dataUrl, ',')])
    ensures r.data.None? <==> ',' !in dataUrl
    ensures r.data.Some? ==>
              var rest := dataUrl[IndexOf(dataUrl, ',') + 1..];
              r.data.value == rest[..IndexOf(rest, ',')]
  {
    var pieces := Split(dataUrl, ',');
    ImageData(MimeTypeOf(pieces[0]), if |pieces| > 1 then Some(pieces[1]) else None, dataUrl)
  }

  /** The renderable `data:<mime>;base64,<bytes>` string that both calls
      return. */
  function DataUrl(mimeType: string, bytes: string): string
  {
    "data:" + mimeType + ";base64," + bytes
  }

  /** A MIME type that survives a trip through DataUrl and ParseDataUrl. */
  predicate IsPlainMimeType(m: string)
  {
    m != "" && ';' !in m && ',' !in m && forall k :: 0 <= k < |m| ==> !IsLineTerminator(m[k])
  }

  /** Parsing a built data URL gives back its MIME type, and its bytes up
      to their first comma; all of them when they hold none. */
  lemma {:induction false} ParseDataUrlRoundTrip(m: string, d: string)
    requires IsPlainMimeType(m)
    ensures ParseDataUrl(DataUrl(m, d)) == ImageData(m, Some(d[..IndexOf(d, ',')]), DataUrl(m, d))
    ensures ',' !in d ==> ParseDataUrl(DataUrl(m, d)) == ImageData(m, Some(d), DataUrl(m, d))
  {
    var url := DataUrl(m, d);
    var n := |m| + 12;
    assert url[n] == ',';
    assert forall k :: 0 <= k < n ==> url[k] != ',' by {
      forall k | 0 <= k < n ensures url[k] != ',' {
        if 5 <= k < |m| + 5 { assert url[k] == m[k - 5]; }
      }
    }
    assert IndexOf(url, ',') == n;
    assert url[n + 1..] == d;
    var h := url[..n];
    var e := |m| + 5;
    forall k | 5 <= k < e ensures h[k] != ';' && !IsLineTerminator(h[k]) {
      assert h[k] == m[k - 5];
    }
    assert MatchesAt(h, 4, e);
    assert IsLeftmostMatch(h, 4, e);
    assert h[5..e] == m;
    assert ',' !in d ==> d[..IndexOf(d, ',')] == d;
  }

  // ---------------------------------------------------------------------
  // Styles and the generation prompt
  // ---------------------------------------------------------------------

  /** The closed set of photo styles. */
  datatype ImageStyle = RusticDark | BrightModern | SocialMedia

  // The three fragments, written phrase by phrase.
  const RusticDarkFragment: string :=
    "The style is rustic and dark, "
    + "featuring moody lighting, "
    + "deep shadows, "
    + "and rich textures. "
    + "It's set on a dark wood table with vintage, "
    + "rustic props like aged cutlery and linen napkins. "
    + "Shot with a professional DSLR camera, "
    + "creating a dramatic, "
    + "high-end culinary atmosphere."
  const BrightModernFragment: string :=
    "The style is bright, "
    + "modern, and airy. "
    + "It features clean, "
    + "even lighting, "
    + "a minimalist aesthetic, "
    + "and a light-colored background. "
    + "The dish is presented on a contemporary white plate. "
    + "The focus is sharp, "
    + "highlighting the food's fresh ingredients with a sophisticated, "
    + "clean look."
  const SocialMediaFragment: string :=
    "The style is a vibrant, "
    + "top-down flat lay, "
    + "perfect for social media. "
    + "It features bright, "
    + "saturated colors and an engaging composition "
    + "with complementary ingredients or props "
    + "scattered around the main dish. "
    + "The shot is dynamic, "
    + "eye-catching, "
    + "and designed to look delicious and shareable."

  /** getStylePrompt: the fixed descriptive fragment of each style. */
  function StylePrompt(style: ImageStyle): string
  {
    match style
    case RusticDark => RusticDarkFragment
    case BrightModern => BrightModernFragment
    case SocialMedia => SocialMediaFragment
  }

  predicate IsPrefix(a: string, b: string)
  {
    |a| <= |b| && b[..|a|] == a
  }

  predicate IsSuffix(a: string, b: string)
  {
    |a| <= |b| && b[|b| - |a|..] == a
  }

  /** `a` occurs in `b` at index `i`. */
  predicate OccursAt(b: string, a: string, i: nat)
  {
    i + |a| <= |b| && b[i..i + |a|] == a
  }

  /** `a` occurs somewhere in `b`. */
  ghost predicate Contains(b: string, a: string)
  {
    exists i: nat :: OccursAt(b, a, i)
  }

  /** Associativity of `+`, stated once so that proofs about the long
      literal prompt parts can regroup them without unfolding the literals. */
  lemma AppendAssoc(a: string, b: string, c: string)
    ensures a + b + c == a + (b + c)
  {
  }

  /** Where the three parts of `a + b + c` lie. */
  lemma ThreeParts(a: string, b: string, c: string)
    ensures var s := a + b + c;
            IsPrefix(a, s) && s[|a|..] == b + c && IsSuffix(c, s) &&
            OccursAt(s, b, |a|) && OccursAt(s, c, |a| + |b|)
  {
    var s := a + b + c;
    assert s[..|a|] == a;
    assert s[|a|..] == b + c;
    assert s[|a|..|a| + |b|] == b;
    assert s[|a| + |b|..] == c;
  }

  /** Two suffixes of one string: the shorter is a suffix of the longer. */
  lemma SuffixesNest(a: string, b: string, s: string)
    requires IsSuffix(a, s) && IsSuffix(b, s) && |a| <= |b|
    ensures IsSuffix(a, b)
  {
    assert b[|b| - |a|..] == s[|s| - |a|..];
  }

  /** No string ends with two strings neither of which ends the other. */
  lemma NoCommonEnding(f: string, g: string, s: string)
    requires !IsSuffix(f, g) && !IsSuffix(g, f)
    ensures !(IsSuffix(f, s) && IsSuffix(g, s))
  {
    if IsSuffix(f, s) && IsSuffix(g, s) {
      if |f| <= |g| {
        SuffixesNest(f, g, s);
      } else {
        SuffixesNest(g, f, s);
      }
    }
  }

  /** A helper for telling the fragments apart: the character each has
      third from its end. */
  function EndMark(style: ImageStyle): (c: char)
    ensures |StylePrompt(style)| >= 3 && StylePrompt(style)[|StylePrompt(style)| - 3] == c
  {
    match style
    case RusticDark => 'r'
    case BrightModern => 'o'
    case SocialMedia => 'l'
  }

  /** Strings that differ in their third character from the end do not
      end each other. */
  lemma DistinctEndsNotSuffix(a: string, b: string)
    requires |a| >= 3 && |b| >= 3 && a[|a| - 3] != b[|b| - 3]
    ensures !IsSuffix(a, b)
  {
  }

  /** No style's fragment ends another's, so the appended fragment names
      the style; in particular the three fragments are pairwise distinct. */
  lemma StyleFragmentsSuffixFree(s: ImageStyle, t: ImageStyle)
    requires s != t
    ensures !IsSuffix(StylePrompt(s), StylePrompt(t))
    ensures StylePrompt(s) != StylePrompt(t)
  {
    var a, b := StylePrompt(s), StylePrompt(t);
    assert EndMark(s) != EndMark(t);
    DistinctEndsNotSuffix(a, b);
  }

  const PromptOpening := "A stunning, hyper-realistic food photograph of \""
  const PromptClosing := "\". "

  /** What follows the dish name in a prompt of the given style. */
  function StyleTail(style: ImageStyle): string
  {
    PromptClosing + StylePrompt(style)
  }

  /** The `fullPrompt` template of generateFoodImage. */
  function FullPrompt(dishName: string, style: ImageStyle): string
  {
    PromptOpening + dishName + StyleTail(style)
  }

  /** The text in front of `tail`, when `rest` ends with `tail`. */
  function DishBefore(rest: string, tail: string): (r: Option<string>)
    ensures r.Some? <==> IsSuffix(tail, rest)
    ensures r.Some? ==> rest == r.value + tail
  {
    if IsSuffix(tail, rest) then
      assert rest == rest[..|rest| - |tail|] + tail;
      Some(rest[..|rest| - |tail|])
    else None
  }

  /** The text in front of a tail is found again. */
  lemma DishBeforeOwnTail(d: string, tail: string)
    ensures DishBefore(d + tail, tail) == Some(d)
  {
    var s := d + tail;
    assert s[|s| - |tail|..] == tail;
    assert s[..|s| - |tail|] == d;
  }

  /** Text in front of the tail of another style is never found. */
  lemma DishBeforeOtherTail(d: string, q: string, f: string, g: string)
    requires !IsSuffix(f, g) && !IsSuffix(g, f)
    ensures DishBefore(d + (q + f), q + g).None?
  {
    var s := d + (q + f);
    assert IsSuffix(f, s) by { assert s[|s| - |f|..] == f; }
    if IsSuffix(q + g, s) {
      assert IsSuffix(g, s) by { assert s[|s| - |g|..] == (q + g)[|q|..]; }
      NoCommonEnding(f, g, s);
    }
  }

  /** After a dish name and one style's tail, no other style's tail is found. */
  lemma OtherTailAbsent(dishName: string, style: ImageStyle, t: ImageStyle)
    requires t != style
    ensures DishBefore(dishName + StyleTail(style), StyleTail(t)).None?
  {
    StyleFragmentsSuffixFree(style, t);
    StyleFragmentsSuffixFree(t, style);
    DishBeforeOtherTail(dishName, PromptClosing, StylePrompt(style), StylePrompt(t));
  }

  /** The dish name and style of a prompt, from the text after the opening. */
  function SplitTail(rest: string): (r: Option<(string, ImageStyle)>)
    ensures r.Some? ==> rest == r.value.0 + StyleTail(r.value.1)
  {
    match DishBefore(rest, StyleTail(RusticDark))
    case Some(d) => Some((d, RusticDark))
    case None =>
      match DishBefore(rest, StyleTail(BrightModern))
      case Some(d) => Some((d, BrightModern))
      case None =>
        match DishBefore(rest, StyleTail(SocialMedia))
        case Some(d) => Some((d, SocialMedia))
        case None => None
  }

  /** Reads the dish name and the style back out of a prompt: the inverse
      of FullPrompt. */
  function ParsePrompt(prompt: string): (r: Option<(string, ImageStyle)>)
    ensures r.Some? ==> FullPrompt(r.value.0, r.value.1) == prompt
  {
    if !IsPrefix(PromptOpening, prompt) then None
    else
      var rest := prompt[|PromptOpening|..];
      assert prompt == PromptOpening + rest;
      match SplitTail(rest)
      case Some((d, style)) =>
        AppendAssoc(PromptOpening, d, StyleTail(style));
        Some((d, style))
      case None => None
  }

  /** The text after the opening splits back into dish name and style. */
  lemma SplitTailRoundTrip(dishName: string, style: ImageStyle)
    ensures SplitTail(dishName + StyleTail(style)) == Some((dishName, style))
  {
    var rest := dishName + StyleTail(style);
    DishBeforeOwnTail(dishName, StyleTail(style));
    match style
    case RusticDark =>
    case BrightModern =>
      OtherTailAbsent(dishName, style, RusticDark);
    case SocialMedia =>
      OtherTailAbsent(dishName, style, RusticDark);
      OtherTailAbsent(dishName, style, BrightModern);
  }

  /** The dish name and the style can be read back out of the prompt. */
  lemma ParsePromptRoundTrip(dishName: string, style: ImageStyle)
    ensures ParsePrompt(FullPrompt(dishName, style)) == Some((dishName, style))
  {
    ThreeParts(PromptOpening, dishName, StyleTail(style));
    SplitTailRoundTrip(dishName, style);
  }

  /** The prompt quotes the dish name verbatim after the opening text, and
      ends with the selected style's fragment and with no other style's. */
  lemma PromptQuotesDishAndFragment(dishName: string, style: ImageStyle)
    ensures var p := FullPrompt(dishName, style);
            IsPrefix(PromptOpening, p) &&
            p[|PromptOpening|..|PromptOpening| + |dishName|] == dishName &&
            Contains(p, dishName) && Contains(p, StylePrompt(style)) &&
            IsSuffix(StylePrompt(style), p) &&
            forall t :: t != style ==> !IsSuffix(StylePrompt(t), p)
  {
    var p := FullPrompt(dishName, style);
    ThreeParts(PromptOpening, dishName, StyleTail(style));
    AppendAssoc(PromptOpening + dishName, PromptClosing, StylePrompt(style));
    ThreeParts(PromptOpening + dishName, PromptClosing, StylePrompt(style));
    forall t | t != style ensures !IsSuffix(StylePrompt(t), p) {
      StyleFragmentsSuffixFree(style, t);
      StyleFragmentsSuffixFree(t, style);
      NoCommonEnding(StylePrompt(style), StylePrompt(t), p);
    }
  }

  /** Distinct inputs give distinct prompts. */
  lemma FullPromptInjective(d1: string, s1: ImageStyle, d2: string, s2: ImageStyle)
    requires FullPrompt(d1, s1) == FullPrompt(d2, s2)
    ensures d1 == d2 && s1 == s2
  {
    ParsePromptRoundTrip(d1, s1);
    ParsePromptRoundTrip(d2, s2);
  }

  /** "No other style's fragment" holds of the appended fragment only: a
      dish name may itself quote another style's fragment. */
  lemma DishNameMayQuoteAnotherFragment(s: ImageStyle, t: ImageStyle)
    ensures Contains(FullPrompt(StylePrompt(t), s), StylePrompt(t))
  {
    ThreeParts(PromptOpening, StylePrompt(t), StyleTail(s));
  }

  // ---------------------------------------------------------------------
  // generateFoodImage: request and result
  // ---------------------------------------------------------------------

  const JpegMimeType := "image/jpeg"

  datatype GenerateImagesConfig = GenerateImagesConfig(numberOfImages: nat, outputMimeType: string, aspectRatio: string)
  datatype GenerateImagesRequest = GenerateImagesRequest(prompt: string, config: GenerateImagesConfig)

  /** The request generateFoodImage sends: one JPEG image at 4:3, for the
      full prompt. */
  function GenerationRequest(dishName: string, style: ImageStyle): (req: GenerateImagesRequest)
    ensures req.config.numberOfImages == 1
    ensures req.config.outputMimeType == JpegMimeType
    ensures req.config.aspectRatio == "4:3"
    ensures req.prompt == FullPrompt(dishName, style)
  {
    GenerateImagesRequest(FullPrompt(dishName, style), GenerateImagesConfig(1, JpegMimeType, "4:3"))
  }

  /** The request carries the dish name and the style: both can be read
      back out of its prompt, so distinct inputs give distinct requests. */
  lemma GenerationRequestCarriesInputs(dishName: string, style: ImageStyle)
    ensures ParsePrompt(GenerationRequest(dishName, style).prompt) == Some((dishName, style))
  {
    ParsePromptRoundTrip(dishName, style);
  }

  datatype GeneratedImage = GeneratedImage(imageBytes: string)

  /** `generatedImages` may be absent from the response. */
  datatype GenerateImagesResponse = GenerateImagesResponse(generatedImages: Option<seq<GeneratedImage>>)

  /** What the two calls throw: the two errors the service raises itself,
      and NoCandidate for the TypeError of reading `candidates[0].content`
      of an empty list. */
  datatype ServiceError = GenerationFailed | NoCandidate | EditFailed

  /** The result generateFoodImage returns or throws for a response. */
  function GenerationResult(resp: GenerateImagesResponse): (r: Result<string, ServiceError>)
    ensures r.Err? <==> resp.generatedImages.None? || resp.generatedImages.value == []
    ensures r.Err? ==> r.error == GenerationFailed
    ensures r.Ok? ==> r.value == DataUrl(JpegMimeType, resp.generatedImages.value[0].imageBytes)
    ensures r.Ok? ==> ParseDataUrl(r.value).mimeType == JpegMimeType
    ensures r.Ok? ==> var bytes := resp.generatedImages.value[0].imageBytes;
              ',' !in bytes ==> ParseDataUrl(r.value) == ImageData(JpegMimeType, Some(bytes), r.value)
  {
    match resp.generatedImages
    case Some(images) =>
      if |images| > 0 then
        ParseDataUrlRoundTrip(JpegMimeType, images[0].imageBytes);
        Ok(DataUrl(JpegMimeType, images[0].imageBytes))
      else Err(GenerationFailed)
    case None => Err(GenerationFailed)
  }

  /** How a view sees a call settle: the data URL it resolves with, or a
      rejection, whatever the error (network, credential, quota or one of
      ServiceError). */
  datatype CallOutcome = Resolved(url: string) | Rejected

  /** The settlement of a call whose response arrived. */
  function OutcomeOf(r: Result<string, ServiceError>): (o: CallOutcome)
    ensures o.Resolved? <==> r.Ok?
    ensures o.Resolved? ==> o.url == r.value
  {
    match r
    case Ok(url) => Resolved(url)
    case Err(_) => Rejected
  }

  // ---------------------------------------------------------------------
  // editImage: request and result
  // ---------------------------------------------------------------------

  /** The image sent for editing; `data` is the payload's, possibly absent. */
  datatype RequestImage = RequestImage(data: Option<string>, mimeType: string)
  datatype RequestPart = InlineDataPart(inlineData: RequestImage) | TextPart(text: string)
  datatype Modality = ImageModality
  datatype EditRequest = EditRequest(parts: seq<RequestPart>, responseModalities: seq<Modality>)

  /** The request editImage sends: the image part, then the instruction,
      asking for image output. */
  function EditRequestFor(data: Option<string>, mimeType: string, prompt: string): (req: EditRequest)
    ensures |req.parts| == 2
    ensures req.parts[0] == InlineDataPart(RequestImage(data, mimeType))
    ensures req.parts[1] == TextPart(prompt)
    ensures req.responseModalities == [ImageModality]
  {
    EditRequest([InlineDataPart(RequestImage(data, mimeType)), TextPart(prompt)], [ImageModality])
  }

  datatype InlineData = InlineData(mimeType: string, data: string)

  /** A response part carries image data, text, both or neither. */
  datatype ResponsePart = ResponsePart(inlineData: Option<InlineData>, text: Option<string>)
  datatype Candidate = Candidate(parts: seq<ResponsePart>)
  datatype GenerateContentResponse = GenerateContentResponse(candidates: seq<Candidate>)

  /** The index of the first part that carries image data, or `|parts|`. */
  function FirstInlinePart(parts: seq<ResponsePart>): (k: nat)
    ensures k <= |parts|
    ensures forall j :: 0 <= j < k ==> parts[j].inlineData.None?
    ensures k < |parts| ==> parts[k].inlineData.Some?
  {
    if parts == [] then 0
    else if parts[0].inlineData.Some? then 0
    else 1 + FirstInlinePart(parts[1..])
  }

  /** The result editImage returns or throws for a response: the data URL
      of the first part, in order, that carries image data, with that
      part's own MIME type. */
  function EditResult(resp: GenerateContentResponse): (r: Result<string, ServiceError>)
    ensures resp.candidates == [] ==> r == Err(NoCandidate)
    ensures r.Ok? <==> resp.candidates != [] && exists p :: p in resp.candidates[0].parts && p.inlineData.Some?
    ensures r == Err(EditFailed) <==>
              resp.candidates != [] && forall p :: p in resp.candidates[0].parts ==> p.inlineData.None?
    ensures r.Ok? ==> (resp.candidates != [] &&
              var parts := resp.candidates[0].parts;
              exists k :: 0 <= k < |parts| && parts[k].inlineData.Some? &&
                (forall j :: 0 <= j < k ==> parts[j].inlineData.None?) &&
                r.value == DataUrl(parts[k].inlineData.value.mimeType, parts[k].inlineData.value.data))
  {
    if resp.candidates == [] then Err(NoCandidate)
    else
      var parts := resp.candidates[0].parts;
      var k := FirstInlinePart(parts);
      if k < |parts| then
        Ok(DataUrl(parts[k].inlineData.value.mimeType, parts[k].inlineData.value.data))
      else
        assert forall p :: p in parts ==> p.inlineData.None?;
        Err(EditFailed)
  }

  /** The `for…of` loop of editImage, with its early return. */
  method ExtractEditedImage(resp: GenerateContentResponse) returns (r: Result<string, ServiceError>)
    ensures r == EditResult(resp)
  {
    if |resp.candidates| == 0 {
      return Err(NoCandidate);
    }
    var parts := resp.candidates[0].parts;
    var i := 0;
    while i < |parts|
      invariant 0 <= i <= |parts|
      invariant forall j :: 0 <= j < i ==> parts[j].inlineData.None?
    {
      if parts[i].inlineData.Some? {
        var image := parts[i].inlineData.value;
        assert FirstInlinePart(parts) == i;
        return Ok(DataUrl(image.mimeType, image.data));
      }
      i := i + 1;
    }
    assert FirstInlinePart(parts) == |parts|;
    return Err(EditFailed);
  }

  /** Parsing the edited image's data URL gives back the chosen part's MIME
      type and bytes. */
  lemma EditResultRoundTrip(resp: GenerateContentResponse)
    requires resp.candidates != []
    requires var parts := resp.candidates[0].parts;
             var k := FirstInlinePart(parts);
             k < |parts| && IsPlainMimeType(parts[k].inlineData.value.mimeType) &&
             ',' !in parts[k].inlineData.value.data
    ensures var parts := resp.candidates[0].parts;
            var image := parts[FirstInlinePart(parts)].inlineData.value;
            EditResult(resp) == Ok(DataUrl(image.mimeType, image.data)) &&
            ParseDataUrl(EditResult(resp).value) == ImageData(image.mimeType, Some(image.data), EditResult(resp).value)
  {
    var parts := resp.candidates[0].parts;
    var image := parts[FirstInlinePart(parts)].inlineData.value;
    ParseDataUrlRoundTrip(image.mimeType, image.data);
  }
}
