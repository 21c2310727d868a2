/**
 * The service layer (services/geminiService.ts): extracting SVG markup from a
 * text model's reply, and the per-idea loop that turns the parsed name ideas
 * into one result record each. The calls to the generative models are not
 * modelled; their settled outcomes are inputs.
 */
module GeminiService {
  import opened Wrappers
  import opened Types
  import opened Text

  const SvgOpen := "<svg"
  const SvgClose := "</svg>"
  /** The opening Markdown fence the fallback removes (followed by at most one line feed). */
  const SvgFence := "```svg"
  /** A bare Markdown fence. */
  const Fence := "```"

  const NoNamesMessage := "The AI could not generate any business names. Try a different prompt."
  const FailedDescription := "Logo generation failed for this idea."

  // ---------------------------------------------------------------------------
  // cleanSvgCode
  // ---------------------------------------------------------------------------

  /**
   * The pattern `<svg[\s\S]*?<\/svg>` can match `s[i..j + |SvgClose|]`: an
   * opening `<svg` at `i`, any characters, and a closing `</svg>` at `j`, which
   * therefore starts no earlier than the end of the opening.
   */
  ghost predicate IsSvgMatch(s: string, i: nat, j: nat) {
    && OccursAt(s, SvgOpen, i)
    && i + |SvgOpen| <= j
    && OccursAt(s, SvgClose, j)
  }

  /**
   * The match a regular expression engine reports: the leftmost start at which
   * any match exists and, the quantifier being lazy, the nearest closing tag.
   */
  ghost predicate IsReportedMatch(s: string, i: nat, j: nat) {
    && IsSvgMatch(s, i, j)
    && (forall i': nat, j': nat :: IsSvgMatch(s, i', j') ==> i <= i')
    && (forall j': nat :: IsSvgMatch(s, i, j') ==> j <= j')
  }

  /**
   * `rawText.match(/<svg[\s\S]*?<\/svg>/)`, as the start of the first `<svg` and
   * the start of the first `</svg>` beginning after it. When that opening has no
   * closing tag after it, no later opening has one either, so there is no match.
   */
  function SvgMatch(s: string): (m: Option<(nat, nat)>)
    ensures m.Some? ==> IsReportedMatch(s, m.value.0, m.value.1)
    ensures m.None? ==> forall i: nat, j: nat :: !IsSvgMatch(s, i, j)
  {
    match IndexOfFrom(s, SvgOpen, 0)
    case None => None
    case Some(i) =>
      match IndexOfFrom(s, SvgClose, i + |SvgOpen|)
      case None => None
      case Some(j) => Some((i, j))
  }

  /**
   * `s.replace(/```svg\n?/, "")`: removes the leftmost "```svg" and the line
   * feed right after it when there is one; nothing else changes.
   */
  function StripSvgFence(s: string): (r: string)
    ensures Absent(s, SvgFence) ==> r == s
    ensures forall k: nat :: FirstAt(s, SvgFence, k) ==>
      var n := if k + |SvgFence| < |s| && s[k + |SvgFence|] == '\n' then |SvgFence| + 1 else |SvgFence|;
      r == s[..k] + s[k + n..]
  {
    IndexOfFirst(s, SvgFence);
    match IndexOfFrom(s, SvgFence, 0)
    case None => s
    case Some(k) =>
      var n := if k + |SvgFence| < |s| && s[k + |SvgFence|] == '\n' then |SvgFence| + 1 else |SvgFence|;
      s[..k] + s[k + n..]
  }

  /**
   * `cleanSvgCode`: the reported regex match verbatim when there is one;
   * otherwise the text with its first "```svg" fence and then its first
   * remaining "```" removed, trimmed.
   */
  function CleanSvgCode(raw: string): (r: string)
    ensures forall i: nat, j: nat :: IsReportedMatch(raw, i, j) ==> r == raw[i..j + |SvgClose|]
    ensures (forall i: nat, j: nat :: !IsSvgMatch(raw, i, j)) ==>
      r == [] || (!IsSpace(r[0]) && !IsSpace(r[|r| - 1]))
  {
    match SvgMatch(raw)
    case Some((i, j)) => raw[i..j + |SvgClose|]
    case None => Trim(ReplaceFirst(StripSvgFence(raw), Fence, ""))
  }

  /**
   * Inside the reported match, `</svg>` occurs only where the match ends: an
   * earlier one would overlap the opening `<svg` or end a shorter match.
   */
  lemma ClosingOnlyAtEnd(raw: string, i: nat, j: nat, k: nat)
    requires IsReportedMatch(raw, i, j)
    requires OccursAt(raw[i..j + |SvgClose|], SvgClose, k)
    ensures k == j - i
  {
    var r := raw[i..j + |SvgClose|];
    assert r[..|SvgOpen|] == raw[i..i + |SvgOpen|] == SvgOpen;
    assert r[0] == '<' && r[1] == 's' && r[2] == 'v' && r[3] == 'g';
    assert r[k..k + |SvgClose|] == SvgClose;
    assert r[k] == '<' && r[k + 1] == '/';
    assert k >= |SvgOpen|;
    OccursInSlice(raw, SvgClose, i, j + |SvgClose|, k);
    assert IsSvgMatch(raw, i, i + k);
  }

  /**
   * When the text holds a match, the extracted markup starts with `<svg`, ends
   * with `</svg>`, and (the quantifier being lazy) holds no other `</svg>`.
   */
  lemma MatchShape(raw: string)
    requires exists i: nat, j: nat :: IsSvgMatch(raw, i, j)
    ensures var r := CleanSvgCode(raw);
      && |r| >= |SvgOpen| + |SvgClose|
      && OccursAt(r, SvgOpen, 0)
      && OccursAt(r, SvgClose, |r| - |SvgClose|)
      && forall k: nat :: OccursAt(r, SvgClose, k) ==> k == |r| - |SvgClose|
  {
    var i0: nat, j0: nat :| IsSvgMatch(raw, i0, j0);
    var m := SvgMatch(raw);
    assert m.Some?;
    var i, j := m.value.0, m.value.1;
    assert CleanSvgCode(raw) == raw[i..j + |SvgClose|];
    ReportedShape(raw, i, j);
  }

  /** The shape of the reported match, stated on the slice itself. */
  lemma ReportedShape(raw: string, i: nat, j: nat)
    requires IsReportedMatch(raw, i, j)
    ensures var r := raw[i..j + |SvgClose|];
      && |r| >= |SvgOpen| + |SvgClose|
      && OccursAt(r, SvgOpen, 0)
      && OccursAt(r, SvgClose, |r| - |SvgClose|)
      && forall k: nat :: OccursAt(r, SvgClose, k) ==> k == |r| - |SvgClose|
  {
    var r := raw[i..j + |SvgClose|];
    assert r[..|SvgOpen|] == raw[i..i + |SvgOpen|];
    assert r[|r| - |SvgClose|..] == raw[j..j + |SvgClose|];
    forall k: nat | OccursAt(r, SvgClose, k)
      ensures k == |r| - |SvgClose|
    {
      ClosingOnlyAtEnd(raw, i, j, k);
    }
  }

  /** When the text holds a match, cleaning the extracted markup again returns it unchanged. */
  lemma MatchIdempotent(raw: string)
    requires exists i: nat, j: nat :: IsSvgMatch(raw, i, j)
    ensures CleanSvgCode(CleanSvgCode(raw)) == CleanSvgCode(raw)
  {
    var r := CleanSvgCode(raw);
    MatchShape(raw);
    var j := |r| - |SvgClose|;
    assert IsSvgMatch(r, 0, j);
    assert IsReportedMatch(r, 0, j);
    assert r[0..j + |SvgClose|] == r;
  }

  // ---------------------------------------------------------------------------
  // generateBusinessIdeas
  // ---------------------------------------------------------------------------

  /**
   * How the two logo requests for one idea settled. `Responses` carries the
   * image bytes of each generated image (a missing `imageBytes` is `None`) and
   * the SVG reply's text (`None` when it is `undefined`); `Rejected` stands for
   * either request rejecting, or anything else thrown inside the `try`.
   */
  datatype LogoOutcome =
    | Responses(images: seq<Option<string>>, svgText: Option<string>)
    | Rejected

  /** `generatedImages[0]?.image.imageBytes ?? ''`. */
  function FirstImageBytes(images: seq<Option<string>>): (b: string)
    ensures images == [] ==> b == ""
    ensures images != [] && images[0].Some? ==> b == images[0].value
    ensures images != [] && images[0].None? ==> b == ""
  {
    if images == [] then "" else images[0].GetOr("")
  }

  /** The fixed record pushed for an idea whose logo generation failed. */
  function Placeholder(idea: NameIdea): GeneratedResult {
    GeneratedResult(idea.name, FailedDescription, "", "")
  }

  /**
   * The record pushed for one idea. `cleanSvgCode(undefined)` throws inside the
   * `try`, so a missing SVG text leads to the placeholder like a rejection does.
   */
  function ResultFor(idea: NameIdea, outcome: LogoOutcome): (r: GeneratedResult)
    ensures r.name == idea.name
    ensures outcome.Responses? && outcome.svgText.Some? ==>
      r == GeneratedResult(idea.name, idea.description,
                           FirstImageBytes(outcome.images), CleanSvgCode(outcome.svgText.value))
    ensures !(outcome.Responses? && outcome.svgText.Some?) ==> r == Placeholder(idea)
  {
    match outcome
    case Responses(images, Some(text)) =>
      GeneratedResult(idea.name, idea.description, FirstImageBytes(images), CleanSvgCode(text))
    case _ => Placeholder(idea)
  }

  /** Applies `f` to the pairs of equal positions of two lists of the same length. */
  function MapPairs<A, B, C>(f: (A, B) -> C, xs: seq<A>, ys: seq<B>): (zs: seq<C>)
    requires |ys| == |xs|
    ensures |zs| == |xs|
  {
    if xs == [] then []
    else
      var n := |xs| - 1;
      MapPairs(f, xs[..n], ys[..n]) + [f(xs[n], ys[n])]
  }

  lemma {:induction false} MapPairsAt<A, B, C>(f: (A, B) -> C, xs: seq<A>, ys: seq<B>, i: nat)
    requires |ys| == |xs| && i < |xs|
    ensures MapPairs(f, xs, ys)[i] == f(xs[i], ys[i])
  {
    var n := |xs| - 1;
    if i < n {
      assert xs[..n][i] == xs[i] && ys[..n][i] == ys[i];
      MapPairsAt(f, xs[..n], ys[..n], i);
    }
  }

  /** The list the loop builds: one record per idea, pushed in order. */
  function Aggregate(ideas: seq<NameIdea>, outcomes: seq<LogoOutcome>): (rs: seq<GeneratedResult>)
    requires |outcomes| == |ideas|
    ensures |rs| == |ideas|
  {
    MapPairs(ResultFor, ideas, outcomes)
  }

  /** Entry `i` of the list is the record for idea `i` and its own outcome. */
  lemma AggregateAt(ideas: seq<NameIdea>, outcomes: seq<LogoOutcome>, i: nat)
    requires |outcomes| == |ideas| && i < |ideas|
    ensures Aggregate(ideas, outcomes)[i] == ResultFor(ideas[i], outcomes[i])
  {
    MapPairsAt(ResultFor, ideas, outcomes, i);
  }

  /**
   * `generateBusinessIdeas`, after the idea request has settled. A rejected idea
   * request propagates unchanged; a missing or empty `ideas` list rejects with
   * the "no names" error; otherwise one record per idea is pushed, in order, and
   * a failed idea's placeholder never stops the loop.
   */
  method GenerateBusinessIdeas(ideaResponse: Result<Option<seq<NameIdea>>, Thrown>, outcomes: seq<LogoOutcome>)
    returns (r: Result<seq<GeneratedResult>, Thrown>)
    requires ideaResponse.Ok? && ideaResponse.value.Some? ==> |outcomes| == |ideaResponse.value.value|
    ensures ideaResponse.Err? ==> r == Err(ideaResponse.error)
    ensures ideaResponse.Ok? && (ideaResponse.value.None? || ideaResponse.value.value == []) ==>
      r == Err(ErrorObject(NoNamesMessage))
    ensures ideaResponse.Ok? && ideaResponse.value.Some? && ideaResponse.value.value != [] ==>
      r == Ok(Aggregate(ideaResponse.value.value, outcomes))
  {
    if ideaResponse.Err? {
      return Err(ideaResponse.error);
    }
    var nameIdeas := ideaResponse.value.GetOr([]);
    assert ideaResponse.value.Some? ==> nameIdeas == ideaResponse.value.value;
    if nameIdeas == [] {
      return Err(ErrorObject(NoNamesMessage));
    }
    var results: seq<GeneratedResult> := [];
    var i := 0;
    while i < |nameIdeas|
      invariant 0 <= i <= |nameIdeas|
      invariant results == Aggregate(nameIdeas[..i], outcomes[..i])
    {
      var idea := nameIdeas[i];
      var entry := ResultFor(idea, outcomes[i]);
      assert nameIdeas[..i + 1][..i] == nameIdeas[..i];
      assert outcomes[..i + 1][..i] == outcomes[..i];
      results := results + [entry];
      i := i + 1;
    }
    assert nameIdeas[..i] == nameIdeas;
    assert outcomes[..i] == outcomes;
    return Ok(results);
  }

  /** A successful batch has one entry per idea, each named after its own idea. */
  lemma {:induction false} AggregateNames(ideas: seq<NameIdea>, outcomes: seq<LogoOutcome>)
    requires |outcomes| == |ideas|
    ensures |Aggregate(ideas, outcomes)| == |ideas|
    ensures forall i :: 0 <= i < |ideas| ==> Aggregate(ideas, outcomes)[i].name == ideas[i].name
  {
    forall i | 0 <= i < |ideas|
      ensures Aggregate(ideas, outcomes)[i].name == ideas[i].name
    {
      AggregateAt(ideas, outcomes, i);
    }
  }

  /**
   * Changing the outcome of one idea changes only that idea's entry: a failure
   * is confined to its own card.
   */
  lemma {:induction false} FailureIsolated(ideas: seq<NameIdea>, outcomes: seq<LogoOutcome>, j: nat, o: LogoOutcome)
    requires |outcomes| == |ideas| && j < |ideas|
    ensures var before, after := Aggregate(ideas, outcomes), Aggregate(ideas, outcomes[j := o]);
      && |after| == |before|
      && after[j] == ResultFor(ideas[j], o)
      && forall i :: 0 <= i < |ideas| && i != j ==> after[i] == before[i]
  {
    var changed := outcomes[j := o];
    AggregateAt(ideas, changed, j);
    forall i | 0 <= i < |ideas| && i != j
      ensures Aggregate(ideas, changed)[i] == Aggregate(ideas, outcomes)[i]
    {
      AggregateAt(ideas, outcomes, i);
      AggregateAt(ideas, changed, i);
    }
  }

  /**
   * An idea whose requests succeed but return no image and an SVG reply that is
   * blank is pushed with both payloads empty yet with its own description: an
   * empty payload is not treated as a failure.
   */
  lemma EmptyPayloadIsNotFailure(idea: NameIdea, blank: string)
    requires AllSpace(blank)
    ensures ResultFor(idea, Responses([], Some(blank))) ==
      GeneratedResult(idea.name, idea.description, "", "")
  {
    assert forall k :: 0 <= k < |blank| ==> blank[k] != '<' && blank[k] != '`';
    assert SvgMatch(blank).None? by {
      forall k: nat | k + |SvgOpen| <= |blank| ensures !OccursAt(blank, SvgOpen, k) {
        assert blank[k..k + |SvgOpen|][0] == blank[k];
      }
    }
    assert Absent(blank, SvgFence) by {
      forall k: nat | k + |SvgFence| <= |blank| ensures !OccursAt(blank, SvgFence, k) {
        assert blank[k..k + |SvgFence|][0] == blank[k];
      }
    }
    assert Absent(blank, Fence) by {
      forall k: nat | k + |Fence| <= |blank| ensures !OccursAt(blank, Fence, k) {
        assert blank[k..k + |Fence|][0] == blank[k];
      }
    }
    assert ReplaceFirst(StripSvgFence(blank), Fence, "") == blank;
    TrimEmptyIff(blank);
  }
}
