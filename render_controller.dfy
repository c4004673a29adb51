/**
 * The render controller: loads a deck, then dispatches on the format token to
 * one of the two renderer operations. The renderer is represented by the call
 * the controller makes on it.
 */
module RenderController {
  import opened Wrappers
  import opened Models
  import opened DeckStorage

  /** The one renderer call made. */
  datatype RenderCall =
    | RenderPdf(deck: Deck, output: string)
    | RenderHtml(deck: Deck, output: string)

  datatype RenderError =
    | LoadFailed(cause: LoadError)        // whatever `load` raised
    | UnsupportedFormat(message: string)  // ValueError("Unsupported format: ...")

  /** `render_from_file`: the deck is loaded first, so a load failure wins over a bad
      token; then "pdf" and "html" (matched exactly, case included) select the
      renderer call, and any other token is an error with no call made. */
  function RenderFromFile(fs: FileSystem, input: string, fmt: string, output: string): (r: Result<RenderCall, RenderError>)
    ensures Load(fs, input).Err? ==> r == Err(LoadFailed(Load(fs, input).error))
    ensures Load(fs, input).Ok? && fmt == "pdf" ==> r == Ok(RenderPdf(Load(fs, input).value, output))
    ensures Load(fs, input).Ok? && fmt == "html" ==> r == Ok(RenderHtml(Load(fs, input).value, output))
    ensures Load(fs, input).Ok? && fmt != "pdf" && fmt != "html" ==> r == Err(UnsupportedFormat("Unsupported format: " + fmt))
  {
    var deck :- match Load(fs, input)
                case Ok(d) => Ok(d)
                case Err(e) => Err(LoadFailed(e));
    if fmt == "pdf" then Ok(RenderPdf(deck, output))
    else if fmt == "html" then Ok(RenderHtml(deck, output))
    else Err(UnsupportedFormat("Unsupported format: " + fmt))
  }

  /** A renderer call is made exactly when the deck loads and the token is one of the two. */
  lemma RenderCallsIff(fs: FileSystem, input: string, fmt: string, output: string)
    ensures RenderFromFile(fs, input, fmt, output).Ok? <==> Load(fs, input).Ok? && (fmt == "pdf" || fmt == "html")
    ensures RenderFromFile(fs, input, fmt, output).Ok? ==>
              (RenderFromFile(fs, input, fmt, output).value.RenderPdf? <==> fmt == "pdf")
  {
  }

  /** Rendering a deck just saved renders that very deck. */
  lemma RenderAfterSave(fs: FileSystem, d: Deck, input: string, output: string)
    ensures RenderFromFile(Save(fs, d, input), input, "pdf", output) == Ok(RenderPdf(d, output))
    ensures RenderFromFile(Save(fs, d, input), input, "html", output) == Ok(RenderHtml(d, output))
  {
    SaveLoadRoundTrip(fs, d, input);
  }

  /** Tokens are matched case-sensitively: "PDF" is rejected. */
  lemma UpperCaseRejected(fs: FileSystem, input: string, output: string)
    requires Load(fs, input).Ok?
    ensures RenderFromFile(fs, input, "PDF", output) == Err(UnsupportedFormat("Unsupported format: PDF"))
  {
    assert "PDF" != "pdf" && "PDF" != "html" by {
      assert "PDF"[0] != "pdf"[0] && "PDF"[0] != "html"[0];
    }
    assert "Unsupported format: " + "PDF" == "Unsupported format: PDF";
  }
}
