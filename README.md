# editor-ai: transformation URLs, pollers and editor state

editor-ai is a Next.js image and video editor. The server does no image work
itself. Each edit is a server action that builds a Cloudinary
transformation URL from the URL of the active asset, waits until the media
service serves that URL, and returns `{ result }` or `{ error }`. This
project models that core:

- the URL builders of the seven transformation actions (background removal,
  background replacement, generative remove, generative fill, area
  extraction, smart video crop, download at a quality);
- the two pollers: the image poller (twenty checks one second apart) and
  the transcription poller (five status checks with a doubling wait);
- how every action maps a thrown value to its `{ error }` object;
- the Redux layer and image slices, as classes whose methods update their
  fields;
- the two comparison views, which decide which layer goes first.

Calls to the network and to the Cloudinary SDK are inputs of the model:

- `check(url, attempt)` is what each image check gives;
- `check(attempt)` is each transcription status reply;
- `wait(url, kind)` is what the resource poller threw, if anything;
- `update` is what the transcription request threw;
- `subtitledUrl` is the URL the SDK builds.

A run's visible steps (checks, sleeps, requests) are recorded as a trace of
events, so bounds on attempts and total waiting time can be stated.

JavaScript built-ins that the builders use are modelled from their
definitions in ECMA-262:

- `indexOf`, `includes` and `split` (the last from section 22.1.3.23)
  are in `JsString`;
- `encodeURIComponent` (section 19.2.6.5), with UTF-8 percent-encoding
  and a decoder for round trips, is in `UriComponent`;
- the decimal text of an integer in a template literal is in `NumberText`.

Module layout: `Wrappers` (Option, Result), `JsString`, `UriComponent`,
`NumberText`, `UploadUrl` (the split at "/upload/" shared by every builder,
and the png rewrite), `ActionResults` (results, events, the
build-poll-map shape), `WaitForProcessing`, `TranscribeVideo`, one module
per action, `LayerSlice`, `ImageSlice`, `LayersComparison` (the
layers-panel view) and `StoreComparison` (the view fed from the store).

## Model

| member | source | states |
|---|---|---|
| JsString.IndexOf | src/actions/bg-remove-action.ts:56-57 | The result is the first position at or after `from` where the pattern occurs; none means it occurs nowhere after `from`. |
| JsString.SplitFirstTwoPieces | src/actions/bg-remove-action.ts:58 | `split` yields two or more pieces iff the separator occurs, and its first two pieces are the only text before the first separator and between the first and second. |
| JsString.SplitAppend | src/actions/download-asset-action.ts:68 | Splitting `a + sep + b` at a one-character separator gives the pieces of `a` followed by those of `b`. |
| JsString.SplitJoin | src/actions/area-extract-action.ts:77 | Joining pieces that contain no separator and splitting again gives the pieces back. |
| JsString.JoinAppend | src/actions/area-extract-action.ts:77 | `join` of two non-empty lists is the two joins with one separator between them. |
| UriComponent.Encode | src/actions/gen-remove-action.ts:62 | `encodeURIComponent` output uses only unreserved characters and `%XX` triplets; it is empty iff the input is. |
| UriComponent.EncodeHasNoSeparator | src/actions/gen-remove-action.ts:62 | An encoded prompt contains no "/", ";", ",", ":", "?", "&", "=" or "#", so it cannot add path segments or parameters. |
| UriComponent.EncodeUnreserved | src/actions/area-extract-action.ts:77 | Text made of unreserved characters is left unchanged. |
| UriComponent.EncodeAppend | src/actions/area-extract-action.ts:77 | Encoding distributes over concatenation. |
| UriComponent.DecodeEncode | src/actions/gen-remove-action.ts:62 | Decoding the encoding of any text gives the text back. |
| UriComponent.EncodeInjective | src/actions/bg-replace-action.ts:59-60 | Distinct prompts have distinct encodings. |
| NumberText.IntTextRoundTrip | src/actions/gen-fill-action.ts:69 | Parsing the decimal text of an integer gives the integer back. |
| UploadUrl.SplitAtUpload | src/actions/gen-fill-action.ts:63-67 | The halves around the first "/upload/" (up to a second one), both non-empty; otherwise "Invalid URL format", and then no valid halves exist. |
| UploadUrl.NoMarkerIsInvalid | src/actions/gen-fill-action.ts:63-67 | A URL without "/upload/" is rejected with "Invalid URL format". |
| UploadUrl.NoSlashIsInvalid | src/actions/gen-fill-action.ts:63-67 | A URL without any "/" is rejected with "Invalid URL format". |
| UploadUrl.Splice | src/actions/gen-remove-action.ts:56-62 | For the valid halves the result is base + "/upload/" + token + "/" + path; the error is "Invalid URL format" exactly when no valid halves exist. |
| UploadUrl.HalvesOf | src/actions/gen-remove-action.ts:56-62 | On a URL of the usual shape the halves are the base and the path, and the token lands between them. |
| UploadUrl.PngRewrite | src/actions/bg-remove-action.ts:56-57 | The result ends in "png" after the first piece of the URL split at the format; with no occurrence it is the whole URL + "png"; an empty format keeps only the first character, or gives "undefinedpng" for an empty URL. |
| UploadUrl.PngRewriteExtension | src/actions/bg-remove-action.ts:56-57 | When the format first occurs at the end of the URL, the extension is replaced by "png". |
| UploadUrl.EmptyFormatIsInvalid | src/actions/bg-remove-action.ts:56-62 | With an empty format the rewritten URL never has valid halves, so the builder throws "Invalid URL format". |
| ActionResults.CaughtMessage | src/actions/bg-remove-action.ts:34-47 | An `Error` yields its own message; any other thrown value yields the action's generic message. |
| ActionResults.CountsAppend | src/lib/processing/wait-for-processing.ts:14-45 | Checks and total sleep of a trace add up over concatenation. |
| ActionResults.Orchestrate | src/actions/bg-remove-action.ts:27-49 | A build error is returned as `{ error }` with nothing polled; otherwise the poll's events are the action's; the result is the success value made from the built URL iff the poll returned; a thrown value maps through `CaughtMessage`. |
| WaitForProcessing.WaitForImageProcessing | src/lib/processing/wait-for-processing.ts:5-46 | The loop's outcome and events equal the recursive reference poll `ImagePoll`. |
| WaitForProcessing.RetriesCounts | src/lib/processing/wait-for-processing.ts:14-45 | Attempts `first`..`stop-1` that all fail make one check and one 1000 ms sleep each, ending in a sleep. |
| WaitForProcessing.PollFromShape | src/lib/processing/wait-for-processing.ts:14-45 | The poll is the failed retries followed by the first check that does not say "not yet", which decides the outcome; with none, the twentieth sleep is followed by the exhausted error. |
| WaitForProcessing.ImagePollReady | src/lib/processing/wait-for-processing.ts:16-24 | When check k is the first that reports the image ready, the poll returns after k checks and (k-1) seconds of sleep. |
| WaitForProcessing.ImagePollExhausted | src/lib/processing/wait-for-processing.ts:27-44 | Twenty "not yet" answers throw "Image processing failed after multiple attempts" after twenty checks and twenty seconds, the last event being a sleep. |
| WaitForProcessing.ImagePollCheckThrows | src/lib/processing/wait-for-processing.ts:36-40 | A check that throws at attempt k ends the poll with "An unexpected error occurred during image processing check", with no sleep after it. |
| WaitForProcessing.ImagePollSucceedsIff | src/lib/processing/wait-for-processing.ts:14-45 | The poll returns iff some check reports the image ready before any check throws. |
| WaitForProcessing.ImagePollThrows | src/lib/processing/wait-for-processing.ts:36-44 | What the poll throws is always an `Error` carrying one of its two messages. |
| WaitForProcessing.FirstAnswer | src/lib/processing/wait-for-processing.ts:14-45 | The first attempt at or after `attempt` whose check is not "not yet", or one past the last. |
| WaitForProcessing.ImagePollBounds | src/lib/processing/wait-for-processing.ts:6-7 | Every poll makes at most twenty checks, sleeps at most twenty seconds, and every sleep is 1000 ms. |
| TranscribeVideo.StatusOrPending | src/actions/transcribe-video-action.ts:120-122 | The status is the reported one when it is a non-empty text, "pending" otherwise; never empty. |
| TranscribeVideo.CheckStatus | src/actions/transcribe-video-action.ts:114-128 | A thrown reply is rethrown as it is; otherwise a non-empty status, which is either "pending" or exactly the reported field. |
| TranscribeVideo.BackoffSchedule | src/actions/transcribe-video-action.ts:100-106 | The wait doubles from one attempt to the next: 2000, 4000, 8000, 16000 ms. |
| TranscribeVideo.WaitForVideoTranscription | src/actions/transcribe-video-action.ts:79-112 | The loop's outcome and events equal the recursive reference poll `StatusPoll`. |
| TranscribeVideo.WaitsCounts | src/actions/transcribe-video-action.ts:89-107 | Unanswered attempts `first`..`stop-1` make one check each and wait Backoff(stop) - Backoff(first) ms in all. |
| TranscribeVideo.StatusPollFromStep | src/actions/transcribe-video-action.ts:94-106 | An attempt whose status is not terminal makes one check and one backoff wait, then continues with the next attempt. |
| TranscribeVideo.StatusPollFromAnswered | src/actions/transcribe-video-action.ts:94-98 | When check k is the first to answer, the poll is the waits before it and that check, with its answer as outcome. |
| TranscribeVideo.StatusPollFromExhausted | src/actions/transcribe-video-action.ts:100-111 | When no check answers, the poll makes all remaining checks, waits between them only, and throws the exhausted error. |
| TranscribeVideo.FirstAnswer | src/actions/transcribe-video-action.ts:89-98 | The first attempt whose status is terminal or whose check throws, or one past the last. |
| TranscribeVideo.StatusPollAnswered | src/actions/transcribe-video-action.ts:89-98 | When check k is the first to answer, the poll gives that answer after k checks and 2000·(2^(k-1) - 1) ms of waiting. |
| TranscribeVideo.StatusPollExhausted | src/actions/transcribe-video-action.ts:109-111 | Five non-terminal statuses throw "Unable to transcribe video after multiple attempts. Please try again later." after five checks and 30000 ms, with no wait after the fifth. |
| TranscribeVideo.StatusPollBounds | src/actions/transcribe-video-action.ts:80-81 | Every poll makes at most five checks and waits at most 30000 ms; a returned status is "complete" or "failed". |
| TranscribeVideo.TranscribeVideoAction | src/actions/transcribe-video-action.ts:17-55 | The request comes first, and a throw from it skips polling; the result is the subtitled URL iff the status is "complete"; "failed" gives the failure message; a throw maps through `CaughtMessage`. |
| BgRemove.ConstructUrl | src/actions/bg-remove-action.ts:52-71 | For the valid halves of the png-rewritten URL the result is base + "/upload/e_background_removal/" + path; otherwise "Invalid URL format". |
| BgRemove.ConstructUrlUsual | src/actions/bg-remove-action.ts:52-71 | On base + "/upload/" + stem + format the result is base + "/upload/e_background_removal/" + stem + "png". |
| BgRemove.ConstructUrlEmptyFormat | src/actions/bg-remove-action.ts:56-62 | An empty format always ends in "Invalid URL format". |
| BgRemove.BgRemoveAction | src/actions/bg-remove-action.ts:17-50 | A bad URL is returned as `{ error }` without awaiting; otherwise the URL is awaited once as "Image" and returned iff the wait did not throw. |
| GenRemove.Token | src/actions/gen-remove-action.ts:62 | The token is "e_gen_remove:prompt_" followed by text that decodes to the prompt, and contains no "/". |
| GenRemove.TokenEmptyPrompt | src/actions/gen-remove-action.ts:62 | An empty prompt is accepted and gives a token ending in "prompt_". |
| GenRemove.ConstructUrl | src/actions/gen-remove-action.ts:52-69 | For the valid halves the result is base + "/upload/" + token + "/" + path; otherwise "Invalid URL format". |
| GenRemove.GenRemoveAction | src/actions/gen-remove-action.ts:17-50 | A bad URL skips polling; otherwise the image poll's events are the action's, the result is the URL iff the poll returned, and at most twenty checks are made. |
| BgReplace.Token | src/actions/bg-replace-action.ts:59-61 | An empty prompt gives "e_gen_background_replace" with no colon; otherwise ":prompt_" and text that decodes to the prompt follow it; no "/". |
| BgReplace.TokenInjective | src/actions/bg-replace-action.ts:59-61 | Distinct prompts give distinct tokens. |
| BgReplace.ConstructUrl | src/actions/bg-replace-action.ts:52-68 | For the valid halves the result is base + "/upload/" + token + "/" + path, with the path kept verbatim; otherwise "Invalid URL format". |
| BgReplace.BgReplaceAction | src/actions/bg-replace-action.ts:17-50 | A bad URL skips polling; otherwise the image poll decides the result, and at most twenty checks are made. |
| GenFill.TokenIsJoin | src/actions/gen-fill-action.ts:69 | The template literal is the five parameters joined by ",". |
| GenFill.TokenReadsBack | src/actions/gen-fill-action.ts:69 | For a ratio without ",", splitting the token at "," gives the five parameters, from which ratio, width and height read back. |
| GenFill.Token | src/actions/gen-fill-action.ts:69 | The segment starts with "ar_" and contains "/" iff the aspect ratio does, since the numbers are digits and an optional sign. |
| GenFill.ConstructUrl | src/actions/gen-fill-action.ts:61-76 | For the valid halves the result is base + "/upload/ar_" + ratio + ",b_gen_fill,c_pad,w_" + width + ",h_" + height + "/" + path; otherwise "Invalid URL format". |
| GenFill.GenFillAction | src/actions/gen-fill-action.ts:19-59 | A bad URL skips polling; otherwise the image poll decides the result, and at most twenty checks are made. |
| CropVideo.TokenIsJoin | src/actions/crop-video-action.ts:69 | The template literal is the four parameters joined by ",". |
| CropVideo.TokenReadsBack | src/actions/crop-video-action.ts:69 | For a ratio without ",", splitting the token at "," gives the four parameters, from which ratio and height read back. |
| CropVideo.Token | src/actions/crop-video-action.ts:69 | The segment starts with "ar_" and contains "/" iff the aspect ratio does. |
| CropVideo.ConstructUrl | src/actions/crop-video-action.ts:58-76 | For the valid halves the result is base + "/upload/ar_" + ratio + ",c_fill,g_auto,h_" + height + "/" + path; otherwise "Invalid URL format". |
| CropVideo.CropVideoAction | src/actions/crop-video-action.ts:18-56 | A bad URL is returned without awaiting; otherwise the URL is awaited once as "Video" and returned iff the wait did not throw. |
| AreaExtract.EncodeAll | src/actions/area-extract-action.ts:77 | Each prompt is encoded on its own, in order. |
| AreaExtract.FlagNames | src/actions/area-extract-action.ts:79-81 | The names of the flags, in order. |
| AreaExtract.EnabledFlagsFacts | src/actions/area-extract-action.ts:79-81 | "multiple_true", "mode_mask" and "invert_true" are present iff `multiple`, mode "mask" and `invert` hold, always in that order. |
| AreaExtract.FlagTextSemicolons | src/actions/area-extract-action.ts:79-81 | Each appended flag starts with ";" and has no other ";". |
| AreaExtract.FlagSuffixPush | src/actions/area-extract-action.ts:79-81 | Appending one more flag extends the suffix by that flag's text. |
| AreaExtract.FlagSuffixIsJoin | src/actions/area-extract-action.ts:79-81 | The flag suffix is ";" followed by the flag names joined by ";". |
| AreaExtract.BuildExtractParams | src/actions/area-extract-action.ts:77-81 | The string built step by step equals the parameter text `ExtractParams`. |
| AreaExtract.ExtractParams | src/actions/area-extract-action.ts:77-81 | The prompt group comes first, and the parameters are exactly the prompt group iff no option is set. |
| AreaExtract.PromptsReadBack | src/actions/area-extract-action.ts:77 | The prompt group splits at ";" into the encoded prompts, each of which decodes to its prompt. |
| AreaExtract.FlagsReadBack | src/actions/area-extract-action.ts:77-81 | Splitting the parameters at ";" gives the prompt pieces followed by exactly the enabled flag names. |
| AreaExtract.ExtractParamsExample | src/actions/area-extract-action.ts:77-81 | Prompts "cat" and "dog" with `multiple` and mode "mask" give "prompt_(cat;dog);multiple_true;mode_mask". |
| AreaExtract.ExtractParamsNoPrompts | src/actions/area-extract-action.ts:77-80 | No prompts and mode "content" give "prompt_()". |
| AreaExtract.ConstructUrl | src/actions/area-extract-action.ts:67-90 | For the valid halves of the png-rewritten URL the result is base + "/upload/e_extract:" + params + "/" + path; otherwise "Invalid URL format". |
| AreaExtract.AreaExtractAction | src/actions/area-extract-action.ts:21-65 | A bad URL skips polling; otherwise the image poll decides the result, and at most twenty checks are made. |
| DownloadAsset.MapQuality | src/actions/download-asset-action.ts:89-104 | "original" asks for no transformation; "large", "medium" and "small" give "q_80", "q_50" and "q_30"; any other name fails with "Invalid quality parameter". |
| DownloadAsset.QualityRoundTrip | src/actions/download-asset-action.ts:89-104 | Every accepted name reads back from its parameter, so the mapping is one-to-one. |
| DownloadAsset.ConstructUrl | src/actions/download-asset-action.ts:106-126 | The URL must have valid halves even for "original"; with a parameter it goes after "/upload/"; without one the URL is returned unchanged. |
| DownloadAsset.QualitySegmentReadsBack | src/actions/download-asset-action.ts:106-126 | On a URL of the usual shape the parameter lands right after "/upload/", and splitting the result there gives back the base and parameter + "/" + path. |
| DownloadAsset.Filename | src/actions/download-asset-action.ts:68 | For parts without ".", the name splits at "." back into id, quality and format. |
| DownloadAsset.FilenameReadsBack | src/actions/download-asset-action.ts:68 | For an id and a format without ".", the file name splits at "." into id, quality name and format. |
| DownloadAsset.DownloadAssetAction | src/actions/download-asset-action.ts:20-86 | The quality is checked before the URL; each error skips the wait; otherwise the URL is awaited once under the given resource type and returned with the file name, or the thrown value is mapped. |
| DownloadAsset.OriginalKeepsUrl | src/actions/download-asset-action.ts:119 | Quality "original" on a valid URL awaits and downloads the URL itself. |
| LayerSlice.MapLayers | src/lib/redux/features/layerSlice.ts:29-31 | `map` keeps the length and applies the function at every position. |
| LayerSlice.GenerateLayer | src/lib/utils.ts:8-15 | A layer with the given id (the random UUID is a parameter), sizes zero and no URL, name or public id. |
| LayerSlice.FindIndex | src/lib/redux/features/layerSlice.ts:43 | The position of the first layer with the id, or none when no layer has it. |
| LayerSlice.FindById | src/lib/redux/features/layerSlice.ts:43 | `find` gives a layer iff some layer has the id, and then the first layer of the list with that id. |
| LayerSlice.Without | src/lib/redux/features/layerSlice.ts:34-36 | Keeps exactly the layers whose id differs, and is the identity when no layer has the id. |
| LayerSlice.WithoutAppend | src/lib/redux/features/layerSlice.ts:34-36 | Filtering distributes over concatenation, so the kept layers stay in order. |
| LayerSlice.WithoutRemovesId | src/lib/redux/features/layerSlice.ts:34-36 | After removal no layer has the id, and removing again changes nothing. |
| LayerSlice.Replaced | src/lib/redux/features/layerSlice.ts:29-31 | Same length; every layer with the payload's id becomes the payload and every other layer is kept (further facts in ReplacedFacts). |
| LayerSlice.ReplacedFacts | src/lib/redux/features/layerSlice.ts:29-31 | Replacement keeps length and ids, makes the payload what `find` returns for its id, leaves other layers alone, and is idempotent. |
| LayerSlice.WithPosterUrl | src/lib/redux/features/layerSlice.ts:53-57 | Only `posterUrl` changes, and only on layers with the id. |
| LayerSlice.WithTranscriptionUrl | src/lib/redux/features/layerSlice.ts:66-70 | Only `transcriptionUrl` changes, and only on layers with the id. |
| LayerSlice.ActiveAfterSet | src/lib/redux/features/layerSlice.ts:42-44 | The first layer with the id; when no layer has it, `layers[0]`; none only for an empty list. |
| LayerSlice.Dropped | src/lib/redux/features/layerSlice.ts:84-86 | Keeps exactly the other ids with their multiplicities (the id's count drops to zero), is shorter iff the id was present, and is the identity otherwise. |
| LayerSlice.DroppedAppend | src/lib/redux/features/layerSlice.ts:84-86 | Filtering ids distributes over concatenation, so the kept ids stay in order. |
| LayerSlice.ToggleCompared | src/lib/redux/features/layerSlice.ts:83-87 | A present id is removed as `Dropped` removes it; an absent one is appended and only the last two are kept: `[id]` from an empty selection, otherwise the previous last id and then it. |
| LayerSlice.ToggleTwice | src/lib/redux/features/layerSlice.ts:83-87 | Selecting a new id twice restores a selection of at most one id. |
| LayerSlice.LayerStore.constructor | src/lib/redux/features/layerSlice.ts:5-19 | One initial layer, which is also the active one; comparison mode off, nothing selected. The layer comes from `generateLayer` (src/lib/utils.ts:8-15) with its id as a parameter. |
| LayerSlice.LayerStore.LayerAdded | src/lib/redux/features/layerSlice.ts:25-27 | The layer is appended; the rest of the state is unchanged. |
| LayerSlice.LayerStore.LayerUpdated | src/lib/redux/features/layerSlice.ts:28-32 | Layers with the payload's id become the payload; the active layer and the rest stay. |
| LayerSlice.LayerStore.LayerRemoved | src/lib/redux/features/layerSlice.ts:33-37 | Layers with the id are dropped, the rest kept in order; the active layer is untouched. |
| LayerSlice.LayerStore.LayersReordered | src/lib/redux/features/layerSlice.ts:38-40 | The list becomes the payload; nothing else changes. |
| LayerSlice.LayerStore.ActiveLayerSet | src/lib/redux/features/layerSlice.ts:41-45 | The active layer becomes `ActiveAfterSet` of the list; nothing else changes. |
| LayerSlice.LayerStore.PosterUrlUpdated | src/lib/redux/features/layerSlice.ts:46-58 | The list becomes `WithPosterUrl`; nothing else changes. |
| LayerSlice.LayerStore.TranscriptionUrlUpdated | src/lib/redux/features/layerSlice.ts:59-71 | The list becomes `WithTranscriptionUrl`; nothing else changes. |
| LayerSlice.LayerStore.LayerComparisonModeToggled | src/lib/redux/features/layerSlice.ts:72-74 | The mode flips, so two toggles restore it; nothing else changes. |
| LayerSlice.LayerStore.ComparedLayersUpdated | src/lib/redux/features/layerSlice.ts:75-78 | The selection becomes the payload and the mode is on iff it is non-empty. |
| LayerSlice.LayerStore.ComparedLayersCleared | src/lib/redux/features/layerSlice.ts:79-81 | The selection is emptied and the mode is left as it was. |
| LayerSlice.LayerStore.LayerToCompareSelected | src/lib/redux/features/layerSlice.ts:82-90 | The selection becomes `ToggleCompared`, the mode is on iff it is non-empty, and a selection of at most two stays at most two. |
| ImageSlice.ImageStore.constructor | src/lib/redux/features/imageSlice.ts:3-9 | No generation is running at first. |
| ImageSlice.ImageStore.GenerationStarted | src/lib/redux/features/imageSlice.ts:15-17 | The flag is set, whatever it was, so a repeat changes nothing. |
| ImageSlice.ImageStore.GenerationStopped | src/lib/redux/features/imageSlice.ts:18-20 | The flag is cleared, whatever it was, so a repeat changes nothing. |
| LayersComparison.ViewOf | src/components/layers/ImageComparison.tsx:14-29 | The message for no layers, the one layer for one, and the first two otherwise. |
| LayersComparison.BgKey | src/components/layers/ImageComparison.tsx:35-36 | -1 iff the URL is defined and contains "background_removal", 1 otherwise. |
| LayersComparison.Compare | src/components/layers/ImageComparison.tsx:34-38 | Negative iff only the first layer shows a background removal, positive iff only the second does, zero iff both or neither do. |
| LayersComparison.CompareIsConsistent | src/components/layers/ImageComparison.tsx:34-38 | The comparator is antisymmetric, puts a background-removed layer before any other, and ties every other pair. |
| LayersComparison.SortedPair | src/components/layers/ImageComparison.tsx:33-39 | A permutation of the two layers in comparator order; an ordered pair is kept; when exactly one shows a background removal it ends up first. |
| LayersComparison.ImageComparison | src/components/layers/ImageComparison.tsx:13-63 | The caller's array is sorted in place when it holds exactly two layers and left unchanged otherwise; the view shows the array as it then stands. |
| StoreComparison.Resolve | src/components/ImageComparison.tsx:12-14 | No more layers than selected ids, each one from the layer list and carrying a selected id. |
| StoreComparison.ResolveAllFound | src/components/ImageComparison.tsx:12-14 | When every id has a layer, the k-th result is the first layer with the k-th id. |
| StoreComparison.ResolveAppend | src/components/ImageComparison.tsx:12-14 | Resolving a concatenation of selections is the concatenation of the resolutions, so the order of the selection is kept. |
| StoreComparison.ResolveOne | src/components/ImageComparison.tsx:12-14 | One id resolves to the first layer with it, or to nothing when no layer has it. |
| StoreComparison.IncludesAny | src/components/ImageComparison.tsx:36 | `some` is true iff one of the keywords occurs in the text. |
| StoreComparison.HasPriorityKeyword | src/components/ImageComparison.tsx:33-37 | True iff the URL is defined and contains "background_removal", "e_extract" or "b_gen_fill". |
| StoreComparison.Rank | src/components/ImageComparison.tsx:44-49 | 0 iff the URL shows a background removal, below 2 iff it has a priority keyword. |
| StoreComparison.PriorityCompare | src/components/ImageComparison.tsx:44-49 | -1 when the first layer has a lower rank, 1 when a higher one; for equal ranks 0 if both are plain and -1 otherwise. |
| StoreComparison.PriorityCompareByRank | src/components/ImageComparison.tsx:44-49 | The comparator puts a lower rank first and ties two plain layers; for two layers of the same priority rank it answers -1 both ways; with "background_removal" in a's URL it is -1 whatever b is. |
| StoreComparison.Insert | src/components/ImageComparison.tsx:44-49 | Inserting into a list ordered by the key keeps it ordered and adds exactly that layer. |
| StoreComparison.SortBy | src/components/ImageComparison.tsx:44-49 | An ordered permutation of the list. |
| StoreComparison.WithKey | src/components/ImageComparison.tsx:44-49 | The layers of one rank, each from the list. |
| StoreComparison.InsertIsStable | src/components/ImageComparison.tsx:44-49 | Inserting keeps the layers of each key in order, with the inserted one ahead of its equals. |
| StoreComparison.SortByIsStable | src/components/ImageComparison.tsx:44-49 | The sort is stable: for every key, the layers with it come out in the order they went in. |
| StoreComparison.LayersToCompare | src/components/ImageComparison.tsx:39-50 | A permutation of the resolved layers: the same list when none has a priority keyword, otherwise ordered by rank; the layers of each rank keep their order. |
| StoreComparison.FirstHasLowestRank | src/components/ImageComparison.tsx:44-49 | In a rank-ordered list the first layer has the lowest rank. |
| StoreComparison.ComparisonView | src/components/ImageComparison.tsx:16-73 | The message iff no id resolves, the one layer iff one does; otherwise two of the resolved layers (as a multiset, so one layer is not shown twice unless selected twice), the first two in order when none has a priority keyword, and otherwise a first layer whose rank is lowest of all. |

## Left out

- Network and SDK calls are not modelled. The image check, the resource wait, the transcription request and status reply, and the SDK-built subtitled URL are inputs of the functions.
- `checkImageProcessing`, `waitForResourceProcessing` and `sleep` are not part of this model; the source files that define them are not available. The first is an input that answers yes, not yet, or throws. The second is an abstract wait that returns or throws, with no attempts or delays of its own. Sleeps appear as events and never throw.
- src/lib/processing/check-processing.ts defines `checkResourceProcessing`, which `fetch`es the URL; that is network I/O and is left out with the rest.
- Logging through the next-axiom logger and `log.flush()` only writes to a side channel.
- Concurrency: every action is one sequential flow, and the slices see one action at a time.
- Numbers are integers. Widths, heights and sizes that are not integers, and their JavaScript number formatting, are not modelled.
- NumberText.IntText: writes every integer in plain decimal; a template literal writes integers of magnitude 10^21 or more in exponent form ("1e+21"), which is not modelled.
- Strings are sequences of Unicode scalar values, not UTF-16 code units, so the URIError that `encodeURIComponent` raises on a lone surrogate cannot occur.
- Optional booleans of the area-extraction schema (`multiple`, `invert`) are plain booleans, with undefined as false.
- Input validation by the action schemas (zod) is left out; the model takes the parsed input.
- StoreComparison.SortBy: a stable sort by rank (SortByIsStable), which is what the comparator gives when no two layers share priority rank 0 or 1. For such layers the comparator is inconsistent (PriorityCompareByRank), and the order an engine's sort gives them may differ from the model's.
- StoreComparison.ComparisonView: states that the first layer shown has the lowest rank, not which of several such layers it is, for the same reason.
- Rendering is not modelled: images, alt texts, keys, class names and the slider itself. The views are modelled as which layers are shown, in which order.
- `crypto.randomUUID` in `generateLayer` is not modelled; the id is a parameter of `GenerateLayer` and of the store's constructor.
- Redux wiring (store, root reducer, providers, persistence) and the toolbar, upload, export and layer UI components are left out. They only dispatch the modelled slice actions.
- The upload actions are left out; they only forward a file to the SDK's upload stream.
