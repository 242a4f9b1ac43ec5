/** The image-to-image form (components/ImageToImage.tsx): a prompt, the
    uploaded source image as a `data:` URL, the busy flags, the last result and
    the last error. Each handler is one atomic step; the remote call's outcome
    is a parameter. */
module ImageToImage {

  import opened Base
  import opened Strings
  import opened Types
  import opened GeminiService

  class Form {
    var prompt: string
    var sourceImage: Option<string>
    var isLoading: bool
    var isOptimizing: bool
    var result: Option<GeneratedImage>
    var error: Option<string>

    constructor ()
      ensures prompt == "" && sourceImage == None && !isLoading && !isOptimizing
      ensures result == None && error == None
    {
      prompt, sourceImage := "", None;
      isLoading, isOptimizing, result, error := false, false, None, None;
    }

    /** Typing in the prompt box. */
    method OnPromptChange(text: string)
      modifies this
      ensures prompt == text && sourceImage == old(sourceImage)
      ensures isLoading == old(isLoading) && isOptimizing == old(isOptimizing)
      ensures result == old(result) && error == old(error)
    {
      prompt := text;
    }

    /** The file reader has produced the upload's `data:` URL. */
    method OnImageLoaded(dataUrl: string)
      modifies this
      ensures sourceImage == Some(dataUrl) && prompt == old(prompt)
      ensures isLoading == old(isLoading) && isOptimizing == old(isOptimizing)
      ensures result == old(result) && error == old(error)
    {
      sourceImage := Some(dataUrl);
    }

    /** The generate button. Without a non-blank prompt and a source image
        nothing happens and nothing is sent. Otherwise the prompt and the
        stripped image payload are sent as a PNG, the error is cleared, an error
        result is shown while the previous image stays, an image result
        replaces the shown image (recording the prompt), and loading ends. */
    method HandleGenerate(reply: CallOutcome) returns (sent: Option<EditRequest>)
      modifies this
      ensures IsBlank(old(prompt)) || !Truthy(old(sourceImage)) ==> sent == None && unchanged(this)
      ensures !IsBlank(old(prompt)) && Truthy(old(sourceImage)) ==>
                var res := GenerateImageFromImage(reply);
                sent == Some(EditRequestFor(old(prompt), old(sourceImage).value, DefaultMimeType)) && !isLoading &&
                (Truthy(res.error) ==> error == res.error && result == old(result)) &&
                (!Truthy(res.error) ==>
                   error == None &&
                   result == if Truthy(res.image) then Some(GeneratedImage(res.image.value, old(prompt))) else old(result))
      ensures sent.Some? ==> Truthy(error) || (result.Some? && result.value.prompt == old(prompt))
      ensures prompt == old(prompt) && sourceImage == old(sourceImage) && isOptimizing == old(isOptimizing)
    {
      if IsBlank(prompt) || !Truthy(sourceImage) {
        return None;
      }
      isLoading := true;
      error := None;
      sent := Some(EditRequestFor(prompt, sourceImage.value, DefaultMimeType));
      var res := GenerateImageFromImage(reply);
      if Truthy(res.error) {
        error := res.error;
      } else if Truthy(res.image) {
        result := Some(GeneratedImage(res.image.value, prompt));
      }
      isLoading := false;
    }

    /** The optimize button. On a blank prompt nothing happens. Otherwise the
        prompt is replaced by the optimizer's answer (itself never blank) and
        optimizing ends; the source image is untouched. */
    method HandleOptimize(reply: TextReply) returns (sent: Option<string>)
      modifies this
      ensures IsBlank(old(prompt)) ==> sent == None && unchanged(this)
      ensures !IsBlank(old(prompt)) ==>
                sent == Some(old(prompt)) && prompt == OptimizePrompt(old(prompt), reply) &&
                !IsBlank(prompt) && !isOptimizing
      ensures sourceImage == old(sourceImage) && isLoading == old(isLoading)
      ensures result == old(result) && error == old(error)
    {
      if IsBlank(prompt) {
        return None;
      }
      isOptimizing := true;
      sent := Some(prompt);
      var optimized := OptimizePrompt(prompt, reply);
      assert !IsBlank(optimized);
      prompt := optimized;
      isOptimizing := false;
    }
  }

  /** An upload read as a PNG data URL reaches the model as exactly its base64
      payload, with the prompt and the PNG MIME type. */
  lemma UploadSentAsPayload(prompt: string, payload: string)
    requires payload != "" && ',' !in payload
    ensures EditRequestFor(prompt, DataUrl(payload), DefaultMimeType) == EditRequest(prompt, "image/png", payload)
  {
    DataUrlRoundTrip(payload);
  }
}
