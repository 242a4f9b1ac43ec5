/** The text-to-image form (components/TextToImage.tsx): a prompt, the busy
    flags, the last result and the last error. Each handler is one atomic
    step; the remote call's outcome is a parameter. */
module TextToImage {

  import opened Base
  import opened Strings
  import opened Types
  import opened GeminiService

  /** The style chips offered under the prompt. */
  const StyleChips: seq<string> := ["赛博朋克", "水彩画", "3D 渲染", "像素艺术", "中国山水画", "吉卜力风格"]

  /** The full-width comma the chips are joined with. */
  const StyleSeparator: char := '，'

  /** A chip click: an empty prompt becomes the style; any other prompt, even
      one made only of spaces, gets a full-width comma and the style appended. */
  function AppendStyle(prompt: string, style: string): (r: string)
    ensures prompt == "" ==> r == style
    ensures prompt != "" ==> |r| == |prompt| + 1 + |style| && r[..|prompt|] == prompt &&
                             r[|prompt|] == StyleSeparator && r[|prompt| + 1..] == style
  {
    prompt + (if prompt != "" then [StyleSeparator] else "") + style
  }

  lemma {:induction false} JoinSnoc(parts: seq<string>, last: string, sep: char)
    requires |parts| >= 1
    ensures Join(parts + [last], sep) == Join(parts, sep) + [sep] + last
  {
    if |parts| > 1 {
      assert (parts + [last])[1..] == parts[1..] + [last];
      JoinSnoc(parts[1..], last, sep);
    }
  }

  /** Appending a chip adds exactly one comma-separated segment at the end:
      splitting at the full-width comma gives back the earlier segments and
      then the style. */
  lemma {:induction false} AppendStyleSegments(prompt: string, style: string)
    requires StyleSeparator !in style
    ensures Split(AppendStyle(prompt, style), StyleSeparator) ==
            if prompt == "" then [style] else Split(prompt, StyleSeparator) + [style]
  {
    if prompt == "" {
      SplitUnique([style], StyleSeparator);
    } else {
      var parts := Split(prompt, StyleSeparator);
      JoinSnoc(parts, style, StyleSeparator);
      assert AppendStyle(prompt, style) == Join(parts + [style], StyleSeparator);
      assert forall k :: 0 <= k < |parts + [style]| ==>
        (parts + [style])[k] == if k < |parts| then parts[k] else style;
      SplitUnique(parts + [style], StyleSeparator);
    }
  }

  /** None of the offered chips holds the separator, so each click adds one
      segment. */
  lemma StyleChipsHaveNoSeparator()
    ensures forall k :: 0 <= k < |StyleChips| ==> StyleSeparator !in StyleChips[k]
  {
    forall k | 0 <= k < |StyleChips| ensures StyleSeparator !in StyleChips[k] {
      var chip := StyleChips[k];
      assert forall i :: 0 <= i < |chip| ==> chip[i] != StyleSeparator;
    }
  }

  class Form {
    var prompt: string
    var isLoading: bool
    var isOptimizing: bool
    var result: Option<GeneratedImage>
    var error: Option<string>

    constructor ()
      ensures prompt == "" && !isLoading && !isOptimizing && result == None && error == None
    {
      prompt, isLoading, isOptimizing, result, error := "", false, false, None, None;
    }

    /** Typing in the prompt box. */
    method OnPromptChange(text: string)
      modifies this
      ensures prompt == text
      ensures isLoading == old(isLoading) && isOptimizing == old(isOptimizing)
      ensures result == old(result) && error == old(error)
    {
      prompt := text;
    }

    /** A style chip click. */
    method OnStyleChip(style: string)
      modifies this
      ensures prompt == AppendStyle(old(prompt), style)
      ensures isLoading == old(isLoading) && isOptimizing == old(isOptimizing)
      ensures result == old(result) && error == old(error)
    {
      prompt := AppendStyle(prompt, style);
    }

    /** The generate button. On a blank prompt nothing happens and nothing is
        sent. Otherwise the prompt is sent, the error is cleared, an error
        result is shown while the previous image stays, an image result
        replaces the shown image (recording the prompt), and loading ends. */
    method HandleGenerate(reply: CallOutcome) returns (sent: Option<string>)
      modifies this
      ensures IsBlank(old(prompt)) ==> sent == None && unchanged(this)
      ensures !IsBlank(old(prompt)) ==>
                var res := GenerateImageFromText(reply);
                sent == Some(old(prompt)) && !isLoading &&
                (Truthy(res.error) ==> error == res.error && result == old(result)) &&
                (!Truthy(res.error) ==>
                   error == None &&
                   result == if Truthy(res.image) then Some(GeneratedImage(res.image.value, old(prompt))) else old(result))
      ensures sent.Some? ==> Truthy(error) || (result.Some? && result.value.prompt == old(prompt))
      ensures prompt == old(prompt) && isOptimizing == old(isOptimizing)
    {
      if IsBlank(prompt) {
        return None;
      }
      isLoading := true;
      error := None;
      sent := Some(prompt);
      var res := GenerateImageFromText(reply);
      if Truthy(res.error) {
        error := res.error;
      } else if Truthy(res.image) {
        result := Some(GeneratedImage(res.image.value, prompt));
      }
      isLoading := false;
    }

    /** The optimize button. On a blank prompt nothing happens. Otherwise the
        prompt is replaced by the optimizer's answer (itself never blank) and
        optimizing ends. */
    method HandleOptimize(reply: TextReply) returns (sent: Option<string>)
      modifies this
      ensures IsBlank(old(prompt)) ==> sent == None && unchanged(this)
      ensures !IsBlank(old(prompt)) ==>
                sent == Some(old(prompt)) && prompt == OptimizePrompt(old(prompt), reply) &&
                !IsBlank(prompt) && !isOptimizing
      ensures isLoading == old(isLoading) && result == old(result) && error == old(error)
    {
      if IsBlank(prompt) {
        return None;
      }
      isOptimizing := true;
      sent := Some(prompt);
      var optimized := OptimizePrompt(prompt, reply);
      assert !IsBlank(optimized);
      prompt := optimized;
      isOptimizing := false;
    }
  }
}
