/**
 * The generator view (components/ImageGenerator.tsx): the user names a
 * dish, picks a style and generates a photograph. handleGenerate is split
 * at its one `await` into a method that runs up to it and a method that
 * runs from it, given how the call settled.
 */
module GeneratorView {
  import opened Wrappers
  import opened GeminiService

  const EmptyDishMessage := "Please enter a dish name."
  const GenerateFailedMessage := "Failed to generate image. Please try again."

  /** The Generate Image button is enabled. */
  predicate GenerateEnabled(isLoading: bool)
  {
    !isLoading
  }

  /** JavaScript truthiness of a nullable string. */
  predicate Truthy(s: Option<string>)
  {
    s.Some? && s.value != ""
  }

  /** Which elements of the result area render. */
  datatype ResultArea = ResultArea(spinner: bool, errorText: bool, placeholder: bool, image: bool)

  /** The four conditions of the result area. Something always renders;
      the placeholder renders alone; the error text never beside the
      spinner. */
  function ResultAreaOf(isLoading: bool, error: Option<string>, generatedImage: Option<string>): (a: ResultArea)
    ensures a.spinner <==> isLoading
    ensures a.errorText <==> !isLoading && Truthy(error)
    ensures a.placeholder <==> !isLoading && !Truthy(error) && !Truthy(generatedImage)
    ensures a.spinner || a.errorText || a.placeholder || a.image
    ensures a.placeholder ==> !a.spinner && !a.errorText && !a.image
    ensures a.errorText ==> !a.spinner && Truthy(error)
    ensures a.image <==> Truthy(generatedImage)
  {
    ResultArea(
      isLoading,
      Truthy(error) && !isLoading,
      !isLoading && !Truthy(error) && !Truthy(generatedImage),
      Truthy(generatedImage))
  }

  class ImageGenerator {
    var dishName: string
    var style: ImageStyle
    var generatedImage: Option<string>
    var isLoading: bool
    var error: Option<string>
    /** Generation calls issued and not yet settled. */
    ghost var pending: nat

    /** The states the view reaches through its controls: at most one call
        in flight, exactly while loading, and neither an image nor an error
        meanwhile. */
    ghost predicate Valid()
      reads this
    {
      pending <= 1 && (isLoading <==> pending == 1) &&
      (isLoading ==> generatedImage.None? && error.None?)
    }

    /** The view as first rendered. */
    constructor ()
      ensures Valid()
      ensures dishName == "" && style == BrightModern
      ensures generatedImage.None? && !isLoading && error.None? && pending == 0
    {
      dishName, style := "", BrightModern;
      generatedImage, isLoading, error := None, false, None;
      pending := 0;
    }

    /** The dish-name input's onChange. */
    method SetDishName(text: string)
      modifies this
      ensures dishName == text
      ensures style == old(style) && generatedImage == old(generatedImage)
      ensures isLoading == old(isLoading) && error == old(error) && pending == old(pending)
    {
      dishName := text;
    }

    /** A style button: it sets the style and nothing else, and issues no
        request. */
    method SetStyle(s: ImageStyle)
      modifies this
      ensures style == s
      ensures dishName == old(dishName) && generatedImage == old(generatedImage)
      ensures isLoading == old(isLoading) && error == old(error) && pending == old(pending)
    {
      style := s;
    }

    /** handleGenerate up to its `await`. The result is the request
        generateFoodImage sends, or None when the dish name is empty; that
        guard sets only `error`, so an earlier image stays. */
    method HandleGenerate() returns (request: Option<GenerateImagesRequest>)
      modifies this
      ensures request.None? <==> old(dishName) == ""
      ensures request.None? ==>
                error == Some(EmptyDishMessage) && generatedImage == old(generatedImage) &&
                isLoading == old(isLoading) && pending == old(pending)
      ensures request.Some? ==>
                request.value == GenerationRequest(old(dishName), old(style)) &&
                isLoading && error.None? && generatedImage.None? && pending == old(pending) + 1
      ensures dishName == old(dishName) && style == old(style)
    {
      if dishName == "" {
        error := Some(EmptyDishMessage);
        return None;
      }
      request := Some(GenerationRequest(dishName, style));
      isLoading := true;
      error := None;
      generatedImage := None;
      pending := pending + 1;
    }

    /** A click on Generate Image: disabled while loading, so at most one
        request from this control is in flight. */
    method ClickGenerate() returns (request: Option<GenerateImagesRequest>)
      requires Valid()
      modifies this
      ensures Valid()
      ensures old(isLoading) ==>
                request.None? && error == old(error) && generatedImage == old(generatedImage) &&
                isLoading && pending == old(pending)
      ensures !old(isLoading) && old(dishName) == "" ==>
                request.None? && error == Some(EmptyDishMessage) && generatedImage == old(generatedImage) &&
                !isLoading && pending == 0
      ensures !old(isLoading) && old(dishName) != "" ==>
                request == Some(GenerationRequest(old(dishName), old(style))) &&
                isLoading && error.None? && generatedImage.None? && pending == 1
      ensures dishName == old(dishName) && style == old(style)
    {
      if GenerateEnabled(isLoading) {
        request := HandleGenerate();
      } else {
        request := None;
      }
    }

    /** handleGenerate after its `await`, with its `finally`: success shows
        the image, failure the fixed message; loading ends either way. */
    method CompleteGenerate(outcome: CallOutcome)
      requires pending > 0
      modifies this
      ensures outcome.Resolved? ==> generatedImage == Some(outcome.url) && error == old(error)
      ensures outcome.Rejected? ==> generatedImage == old(generatedImage) && error == Some(GenerateFailedMessage)
      ensures !isLoading && pending == old(pending) - 1
      ensures dishName == old(dishName) && style == old(style)
      ensures old(Valid()) ==> Valid() && (outcome.Resolved? ==> error.None?) && (outcome.Rejected? ==> generatedImage.None?)
    {
      match outcome {
        case Resolved(url) =>
          generatedImage := Some(url);
        case Rejected =>
          error := Some(GenerateFailedMessage);
      }
      isLoading := false;
      pending := pending - 1;
    }

    /** What the result area shows. While loading it shows the spinner
        alone. */
    method Display() returns (area: ResultArea)
      requires Valid()
      ensures area == ResultAreaOf(isLoading, error, generatedImage)
      ensures area.spinner <==> isLoading
      ensures area.spinner ==> !area.errorText && !area.placeholder && !area.image
    {
      area := ResultAreaOf(isLoading, error, generatedImage);
    }
  }

  /** A whole generation from the button, with nothing else happening
      between the click and the response; a network failure is `None`. An
      absent or empty image list ends in the fixed message with the dish
      name kept. */
  method Generate(g: ImageGenerator, response: Option<GenerateImagesResponse>)
      returns (request: Option<GenerateImagesRequest>)
    requires g.Valid() && !g.isLoading
    modifies g
    ensures g.Valid() && !g.isLoading
    ensures g.dishName == old(g.dishName) && g.style == old(g.style)
    ensures old(g.dishName) == "" ==>
              request.None? && g.error == Some(EmptyDishMessage) && g.generatedImage == old(g.generatedImage)
    ensures old(g.dishName) != "" ==>
              request == Some(GenerationRequest(old(g.dishName), old(g.style))) &&
              if response.Some? && GenerationResult(response.value).Ok? then
                g.generatedImage == Some(GenerationResult(response.value).value) && g.error.None?
              else
                g.generatedImage.None? && g.error == Some(GenerateFailedMessage)
  {
    request := g.ClickGenerate();
    if request.Some? {
      var outcome := if response.Some? then OutcomeOf(GenerationResult(response.value)) else Rejected;
      g.CompleteGenerate(outcome);
    }
  }
}
