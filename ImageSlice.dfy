/**
  The image slice of the editor's store: a single flag saying whether a
  generative image transformation is in progress.
 */
module ImageSlice {

  /** The slice's state, updated in place by the reducers. */
  class ImageStore {
    var isGenerating: bool

    /** `initialState`: nothing is being generated. */
    constructor ()
      ensures !isGenerating
    {
      isGenerating := false;
    }

    /** `generationStarted`: the flag is set, whatever it was, so repeating it changes nothing. */
    method GenerationStarted()
      modifies this
      ensures isGenerating
    {
      isGenerating := true;
    }

    /** `generationStopped`: the flag is cleared, whatever it was, so repeating it changes nothing. */
    method GenerationStopped()
      modifies this
      ensures !isGenerating
    {
      isGenerating := false;
    }
  }
}
