/**
  `areaExtractAction({ activeImageUrl, prompts, multiple, mode, invert, format })`:
  retarget the image to png, insert the extract effect with its prompt group
  and flags after "/upload/", and poll until the image is ready. The optional
  `multiple` and `invert` are read for truthiness only, so an absent one is
  `false` here.
 */
module AreaExtract {
  import opened Wrappers
  import opened JsString
  import opened UriComponent
  import opened UploadUrl
  import opened ActionResults
  import WaitForProcessing

  /** The `mode` option: keep the extracted content, or return a mask. */
  datatype Mode = Content | Mask

  const Effect := "e_extract:"
  const GenericMessage := "An unexpected error occurred while processing the image"

  /** `prompts.map((prompt) => encodeURIComponent(prompt))`. */
  function EncodeAll(prompts: seq<string>): (r: seq<string>)
    ensures |r| == |prompts|
    ensures forall k :: 0 <= k < |r| ==> r[k] == Encode(prompts[k])
  {
    if prompts == [] then [] else [Encode(prompts[0])] + EncodeAll(prompts[1..])
  }

  /** `prompt_(<encoded prompts joined with ";">)`. */
  function PromptGroup(prompts: seq<string>): string
  {
    "prompt_(" + Join(EncodeAll(prompts), ";") + ")"
  }

  /** The flags the extract parameters may carry. */
  datatype Flag = MultipleTrue | ModeMask | InvertTrue

  /** What each flag appends to the parameters. */
  function FlagText(flag: Flag): string {
    match flag
    case MultipleTrue => ";multiple_true"
    case ModeMask => ";mode_mask"
    case InvertTrue => ";invert_true"
  }

  /** A flag's text without its leading ";". */
  function FlagName(flag: Flag): string {
    FlagText(flag)[1..]
  }

  function FlagNames(flags: seq<Flag>): (names: seq<string>)
    ensures |names| == |flags|
    ensures forall k :: 0 <= k < |flags| ==> names[k] == FlagName(flags[k])
  {
    if flags == [] then [] else [FlagName(flags[0])] + FlagNames(flags[1..])
  }

  /** Where each flag stands in the parameters. */
  function FlagRank(flag: Flag): nat {
    match flag
    case MultipleTrue => 0
    case ModeMask => 1
    case InvertTrue => 2
  }

  /** The flags the options switch on, in the order the source appends them. */
  function EnabledFlags(multiple: bool, mode: Mode, invert: bool): seq<Flag> {
    (if multiple then [MultipleTrue] else [])
    + (if mode == Mask then [ModeMask] else [])
    + (if invert then [InvertTrue] else [])
  }

  /**
    Each flag is present exactly when its option is set, and the flags always
    come in the order multiple, mode, invert; so the flags determine the options.
   */
  lemma EnabledFlagsFacts(multiple: bool, mode: Mode, invert: bool)
    ensures MultipleTrue in EnabledFlags(multiple, mode, invert) <==> multiple
    ensures ModeMask in EnabledFlags(multiple, mode, invert) <==> mode == Mask
    ensures InvertTrue in EnabledFlags(multiple, mode, invert) <==> invert
    ensures forall i, j :: 0 <= i < j < |EnabledFlags(multiple, mode, invert)| ==>
      FlagRank(EnabledFlags(multiple, mode, invert)[i]) < FlagRank(EnabledFlags(multiple, mode, invert)[j])
  {
  }

  /** A flag's text has its only ";" in front. */
  lemma FlagTextSemicolons(flag: Flag)
    ensures FlagText(flag)[0] == ';'
    ensures forall i :: 1 <= i < |FlagText(flag)| ==> FlagText(flag)[i] != ';'
  {
  }

  /** No flag name holds a ";". */
  lemma FlagNameHasNoSemicolon(flag: Flag)
    ensures ';' !in FlagName(flag)
  {
    FlagTextSemicolons(flag);
  }

  /** A flag's text is a ";" and then its name. */
  lemma FlagTextIsName(flag: Flag)
    ensures FlagText(flag) == ";" + FlagName(flag)
  {
  }

  /** Proof step only: a ";"-led text in front of a ";"-led join, regrouped. */
  lemma JoinStep(text: string, name: string, rest: string, restNames: string)
    requires text == ";" + name
    requires rest == ";" + restNames
    ensures text + rest == ";" + (name + ";" + restNames)
  {
  }

  /** Each flag's text, one after the other. */
  function FlagSuffix(flags: seq<Flag>): string {
    if flags == [] then "" else FlagText(flags[0]) + FlagSuffix(flags[1..])
  }

  lemma {:induction false} FlagSuffixPush(flags: seq<Flag>, flag: Flag)
    ensures FlagSuffix(flags + [flag]) == FlagSuffix(flags) + FlagText(flag)
  {
    if flags == [] {
      assert flags + [flag] == [flag];
      assert FlagSuffix([flag]) == FlagText(flag) + FlagSuffix([]);
    } else {
      assert (flags + [flag])[1..] == flags[1..] + [flag];
      FlagSuffixPush(flags[1..], flag);
    }
  }

  /** A non-empty suffix is a ";" and then the flag names joined with ";". */
  lemma {:induction false} FlagSuffixIsJoin(flags: seq<Flag>)
    requires flags != []
    ensures FlagSuffix(flags) == ";" + Join(FlagNames(flags), ";")
  {
    var names := FlagNames(flags);
    FlagTextIsName(flags[0]);
    assert FlagSuffix(flags) == FlagText(flags[0]) + FlagSuffix(flags[1..]);
    if |flags| == 1 {
      assert FlagSuffix(flags[1..]) == "";
      assert Join(names, ";") == FlagName(flags[0]);
    } else {
      FlagSuffixIsJoin(flags[1..]);
      assert names[1..] == FlagNames(flags[1..]);
      assert Join(names, ";") == FlagName(flags[0]) + ";" + Join(FlagNames(flags[1..]), ";");
      JoinStep(FlagText(flags[0]), FlagName(flags[0]), FlagSuffix(flags[1..]), Join(FlagNames(flags[1..]), ";"));
    }
  }

  /** Appending one flag's text to parameters that end in `flags` makes them end in one flag more. */
  lemma AddFlag(params: string, group: string, flags: seq<Flag>, flag: Flag)
    requires params == group + FlagSuffix(flags)
    ensures params + FlagText(flag) == group + FlagSuffix(flags + [flag])
  {
    FlagSuffixPush(flags, flag);
    AppendStep(params, group, FlagSuffix(flags), FlagText(flag), FlagSuffix(flags + [flag]));
  }

  /** Proof step only: regrouping one `+=` of a flag's text. */
  lemma AppendStep(params: string, group: string, suffix: string, text: string, next: string)
    requires params == group + suffix && next == suffix + text
    ensures params + text == group + next
  {
  }

  /** The extract parameters: the prompt group, then the text of each enabled flag. */
  function ExtractParams(prompts: seq<string>, multiple: bool, mode: Mode, invert: bool): (r: string)
    ensures |r| >= |PromptGroup(prompts)| && r[..|PromptGroup(prompts)|] == PromptGroup(prompts)
    ensures r == PromptGroup(prompts) <==> !multiple && mode == Content && !invert
  {
    var flags := EnabledFlags(multiple, mode, invert);
    assert flags == [] <==> !multiple && mode == Content && !invert;
    assert flags != [] ==> FlagSuffix(flags) != "";
    PromptGroup(prompts) + FlagSuffix(flags)
  }

  /** `let extractParams = ...; if (multiple) extractParams += ...`, step by step. */
  method BuildExtractParams(prompts: seq<string>, multiple: bool, mode: Mode, invert: bool) returns (params: string)
    ensures params == ExtractParams(prompts, multiple, mode, invert)
  {
    params := PromptGroup(prompts);
    ghost var group := params;
    ghost var flags: seq<Flag> := [];
    assert params == group + FlagSuffix(flags);
    if multiple {
      AddFlag(params, group, flags, MultipleTrue);
      params := params + ";multiple_true";
      flags := flags + [MultipleTrue];
    }
    if mode == Mask {
      AddFlag(params, group, flags, ModeMask);
      params := params + ";mode_mask";
      flags := flags + [ModeMask];
    }
    if invert {
      AddFlag(params, group, flags, InvertTrue);
      params := params + ";invert_true";
      flags := flags + [InvertTrue];
    }
    assert flags == EnabledFlags(multiple, mode, invert);
  }

  /**
    The prompts read back from the group: its ";"-separated pieces are the
    encoded prompts, one per prompt, and each decodes to its prompt.
   */
  lemma PromptsReadBack(prompts: seq<string>)
    requires prompts != []
    ensures Split(Join(EncodeAll(prompts), ";"), ";") == EncodeAll(prompts)
    ensures forall k :: 0 <= k < |prompts| ==> Decode(EncodeAll(prompts)[k]) == Some(prompts[k])
  {
    var encoded := EncodeAll(prompts);
    forall k | 0 <= k < |encoded|
      ensures ';' !in encoded[k]
      ensures Decode(encoded[k]) == Some(prompts[k])
    {
      EncodeHasNoSeparator(prompts[k]);
      DecodeEncode(prompts[k]);
      assert forall i :: 0 <= i < |encoded[k]| ==> encoded[k][i] != ';';
    }
    SplitJoin(encoded, ";");
  }

  /** Splitting the parameters at ";" gives the pieces of the prompt group, then exactly the enabled flags' names. */
  lemma FlagsReadBack(prompts: seq<string>, multiple: bool, mode: Mode, invert: bool)
    ensures Split(ExtractParams(prompts, multiple, mode, invert), ";") ==
      Split(PromptGroup(prompts), ";") + FlagNames(EnabledFlags(multiple, mode, invert))
  {
    var group := PromptGroup(prompts);
    var flags := EnabledFlags(multiple, mode, invert);
    assert ExtractParams(prompts, multiple, mode, invert) == group + FlagSuffix(flags);
    if flags == [] {
      assert group + FlagSuffix(flags) == group;
    } else {
      SuffixReadsBack(group, flags);
    }
  }

  /** Any text followed by a non-empty flag suffix splits into its own pieces, then the flag names. */
  lemma SuffixReadsBack(group: string, flags: seq<Flag>)
    requires flags != []
    ensures Split(group + FlagSuffix(flags), ";") == Split(group, ";") + FlagNames(flags)
  {
    FlagSuffixIsJoin(flags);
    assert group + FlagSuffix(flags) == group + ";" + Join(FlagNames(flags), ";");
    SplitAppend(group, Join(FlagNames(flags), ";"), ";");
    forall k | 0 <= k < |flags| ensures ';' !in FlagNames(flags)[k] {
      FlagNameHasNoSemicolon(flags[k]);
    }
    SplitJoin(FlagNames(flags), ";");
  }

  /** A worked example. Two prompts, several objects, mask mode: `prompt_(cat;dog);multiple_true;mode_mask`. */
  lemma ExtractParamsExample()
    ensures ExtractParams(["cat", "dog"], true, Mask, false) == "prompt_(cat;dog)" + ";multiple_true" + ";mode_mask"
  {
    PromptGroupExample();
    FlagSuffixExample();
  }

  lemma PromptGroupExample()
    ensures PromptGroup(["cat", "dog"]) == "prompt_(cat;dog)"
  {
    EncodeUnreserved("cat");
    EncodeUnreserved("dog");
    assert EncodeAll(["cat", "dog"]) == ["cat", "dog"];
    assert Join(["cat", "dog"], ";") == "cat" + ";" + "dog";
  }

  lemma FlagSuffixExample()
    ensures FlagSuffix(EnabledFlags(true, Mask, false)) == ";multiple_true" + ";mode_mask"
  {
    assert EnabledFlags(true, Mask, false) == [MultipleTrue, ModeMask];
    assert FlagSuffix([MultipleTrue, ModeMask]) == FlagText(MultipleTrue) + FlagText(ModeMask) + FlagSuffix([]);
  }

  /** With no prompts and no flags the parameters are the empty group `prompt_()`. */
  lemma ExtractParamsNoPrompts()
    ensures ExtractParams([], false, Content, false) == "prompt_(" + ")"
  {
    assert EncodeAll([]) == [];
  }

  /** The transformation segment: the extract effect with its parameters. */
  function Token(prompts: seq<string>, multiple: bool, mode: Mode, invert: bool): string {
    Effect + ExtractParams(prompts, multiple, mode, invert)
  }

  /** `constructUrl`: the extract segment goes between the halves of the png-retargeted URL. */
  function ConstructUrl(activeImageUrl: string, prompts: seq<string>, multiple: bool, mode: Mode, invert: bool, format: string): (r: Result<string>)
    ensures forall b, p :: ValidHalves(PngRewrite(activeImageUrl, format), b, p) ==>
      r == Ok(b + Marker + Token(prompts, multiple, mode, invert) + "/" + p)
    ensures r.Err? ==> r.error == InvalidUrlFormat
    ensures r.Err? ==> forall b, p :: !ValidHalves(PngRewrite(activeImageUrl, format), b, p)
    ensures (forall b, p :: !ValidHalves(PngRewrite(activeImageUrl, format), b, p)) ==> r == Err(InvalidUrlFormat)
  {
    Splice(PngRewrite(activeImageUrl, format), Token(prompts, multiple, mode, invert))
  }

  /**
    The action, given the answers `check` of the image checks: a URL that
    cannot be built is reported before any check; otherwise the built URL is
    polled and returned unless the poll threw, whose message is reported.
   */
  function AreaExtractAction(activeImageUrl: string, prompts: seq<string>, multiple: bool, mode: Mode, invert: bool, format: string,
                             check: WaitForProcessing.Checker): (r: ActionRun<string>)
    ensures ConstructUrl(activeImageUrl, prompts, multiple, mode, invert, format).Err? ==>
      r == ActionRun(WithError(InvalidUrlFormat), [])
    ensures ConstructUrl(activeImageUrl, prompts, multiple, mode, invert, format).Ok? ==>
      r.trace == WaitForProcessing.ImagePoll(ConstructUrl(activeImageUrl, prompts, multiple, mode, invert, format).value, check).trace
    ensures r.result.WithResult? <==>
      ConstructUrl(activeImageUrl, prompts, multiple, mode, invert, format).Ok? &&
      WaitForProcessing.ImagePoll(ConstructUrl(activeImageUrl, prompts, multiple, mode, invert, format).value, check).thrown.None?
    ensures r.result.WithResult? ==>
      r.result.result == ConstructUrl(activeImageUrl, prompts, multiple, mode, invert, format).value
    ensures ConstructUrl(activeImageUrl, prompts, multiple, mode, invert, format).Ok? ==>
      var poll := WaitForProcessing.ImagePoll(ConstructUrl(activeImageUrl, prompts, multiple, mode, invert, format).value, check);
      poll.thrown.Some? ==> r.result == WithError(CaughtMessage(poll.thrown.value, GenericMessage))
    ensures r.result.WithError? ==>
      r.result.error in {InvalidUrlFormat, WaitForProcessing.ExhaustedMessage, WaitForProcessing.UnexpectedMessage}
    ensures Checks(r.trace) <= WaitForProcessing.MaxAttempts
  {
    var built := ConstructUrl(activeImageUrl, prompts, multiple, mode, invert, format);
    var r := Orchestrate(built, WaitForProcessing.ImagePoller(check), url => url, GenericMessage);
    if built.Ok? then
      WaitForProcessing.ImagePollBounds(built.value, check);
      WaitForProcessing.ImagePollThrows(built.value, check);
      r
    else
      r
  }
}
