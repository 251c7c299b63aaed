/** The converter window: the values its widgets and attributes hold, and how
    choosing a file, starting a conversion, finishing it and showing its result
    change them. */
module App {
  import opened Ocr
  import opened Assembly
  import opened Templates
  import opened Render
  import opened Strings

  /** What the preview widget shows before any conversion. */
  const InitialPreview := "<html><body><p>Markdown preview will appear here</p></body></html>"

  /** How the conversion worker of `convert_pdf` ends. */
  datatype Outcome =
    | InvalidPath              // the chosen path is not a file
    | Failed(message: string)  // the upload or the OCR call raised, with this message
    | Processed(response: Response)

  class ConverterApp {
    var apiKey: string
    var pdfPath: string
    /** The text of the status bar. */
    var status: string
    /** What the markdown text widget holds. */
    var markdownText: string
    /** `self.markdown_content`, the last assembled markdown. */
    var markdownContent: string
    /** `self.html_content`, the page kept for the browser. */
    var htmlContent: string
    /** What the preview widget shows. */
    var previewHtml: string
    /** The messages of the error dialogs shown so far, oldest first. */
    var errorDialogs: seq<string>
    /** How many conversion workers have been started. */
    var workersStarted: nat
    /** `markdown.markdown` with the tables, fenced_code and codehilite extensions. */
    const toHtml: string -> string

    constructor (toHtml: string -> string)
      ensures this.toHtml == toHtml
      ensures apiKey == "" && pdfPath == "" && status == "Ready"
      ensures markdownText == "" && markdownContent == "" && htmlContent == ""
      ensures previewHtml == InitialPreview
      ensures errorDialogs == [] && workersStarted == 0
    {
      this.toHtml := toHtml;
      apiKey, pdfPath, status := "", "", "Ready";
      markdownText, markdownContent, htmlContent := "", "", "";
      previewHtml := InitialPreview;
      errorDialogs, workersStarted := [], 0;
    }

    /** The user types into the API key field. */
    method EnterApiKey(key: string)
      modifies this
      ensures apiKey == key
      ensures pdfPath == old(pdfPath) && status == old(status) && markdownText == old(markdownText)
      ensures markdownContent == old(markdownContent) && htmlContent == old(htmlContent)
      ensures previewHtml == old(previewHtml) && errorDialogs == old(errorDialogs)
      ensures workersStarted == old(workersStarted)
    {
      apiKey := key;
    }

    /** `browse_pdf`: the file dialog returns `chosen`, empty when it was cancelled,
        and only a non-empty answer replaces the path. */
    method BrowsePdf(chosen: string)
      modifies this
      ensures pdfPath == if chosen != "" then chosen else old(pdfPath)
      ensures apiKey == old(apiKey) && status == old(status) && markdownText == old(markdownText)
      ensures markdownContent == old(markdownContent) && htmlContent == old(htmlContent)
      ensures previewHtml == old(previewHtml) && errorDialogs == old(errorDialogs)
      ensures workersStarted == old(workersStarted)
    {
      if chosen != "" {
        pdfPath := chosen;
      }
    }

    /** `start_conversion`: without an API key or without a PDF path it shows an
        error dialog and changes nothing else; otherwise it announces the
        conversion, clears the text widget and starts one worker. */
    method StartConversion() returns (started: bool)
      modifies this
      ensures started <==> old(apiKey) != "" && old(pdfPath) != ""
      ensures old(apiKey) == "" ==> errorDialogs == old(errorDialogs) + ["Please enter your Mistral API key"]
      ensures old(apiKey) != "" && old(pdfPath) == "" ==> errorDialogs == old(errorDialogs) + ["Please select a PDF file"]
      ensures !started ==>
        && status == old(status) && markdownText == old(markdownText)
        && workersStarted == old(workersStarted)
      ensures started ==>
        && status == "Converting PDF to Markdown..." && markdownText == ""
        && workersStarted == old(workersStarted) + 1 && errorDialogs == old(errorDialogs)
      ensures apiKey == old(apiKey) && pdfPath == old(pdfPath)
      ensures markdownContent == old(markdownContent) && htmlContent == old(htmlContent)
      ensures previewHtml == old(previewHtml)
    {
      if apiKey == "" {
        errorDialogs := errorDialogs + ["Please enter your Mistral API key"];
        return false;
      }
      if pdfPath == "" {
        errorDialogs := errorDialogs + ["Please select a PDF file"];
        return false;
      }
      status := "Converting PDF to Markdown...";
      markdownText := "";
      workersStarted := workersStarted + 1;
      started := true;
    }

    /** The window shows `content`: the text widget holds it, and the browser page and
        the preview wrap the fragment it converts to. */
    predicate Shows(content: string)
      reads this
    {
      && markdownText == content
      && (htmlContent, previewHtml) == (StandaloneHtml(toHtml(content)), PreviewHtml(toHtml(content)))
    }

    /** Whatever the converter makes of `content`, a window that shows it holds that
        fragment between the fixed parts of both pages, its browser page loads
        MathJax, and its preview mentions the MathJax script only if the fragment
        does. */
    lemma ShownPages(content: string)
      requires Shows(content)
      ensures Between(htmlContent, StandaloneHead, StandaloneTail) == Some(toHtml(content))
      ensures Between(previewHtml, PreviewHead, PreviewTail) == Some(toHtml(content))
      ensures Contains(htmlContent, MathJaxScriptUrl)
      ensures Contains(previewHtml, MathJaxScriptUrl) <==> Contains(toHtml(content), MathJaxScriptUrl)
    {
      var fragment := toHtml(content);
      FragmentRecovered(fragment);
      StandaloneLoadsMathJax(fragment);
      PreviewLoadsNoMathJax(fragment);
    }

    /** `update_result`: the text widget takes the markdown, and the browser page and
        the preview are rebuilt around the same converted fragment. */
    method UpdateResult(content: string)
      modifies this`markdownText, this`htmlContent, this`previewHtml
      ensures Shows(content)
    {
      var fragment := toHtml(content);
      markdownText := content;
      htmlContent := StandaloneHtml(fragment);
      previewHtml := PreviewHtml(fragment);
    }

    /** The end of `convert_pdf` for a processed response, once the result hand-off
        and the last status update it queued have run, in that order. */
    method FinishConversion(response: Response)
      modifies this`status, this`markdownText, this`markdownContent, this`htmlContent, this`previewHtml
      ensures status == "Conversion completed" && markdownContent == Assemble(response.pages)
      ensures Shows(markdownContent)
    {
      var content := GetCombinedMarkdown(response);
      markdownContent := content;
      UpdateResult(content);
      status := "Conversion completed";
    }

    /** The end of `convert_pdf`, once every status update and result hand-off it
        queued has run: an invalid path or a failed call ends in an error status
        (a failed call also in an error dialog) and leaves the result alone; a
        processed response is assembled, kept and shown. */
    method CompleteConversion(outcome: Outcome)
      modifies this`status, this`errorDialogs, this`markdownText, this`markdownContent
      modifies this`htmlContent, this`previewHtml
      ensures outcome.InvalidPath? ==>
        && status == "Error: Invalid PDF file path" && errorDialogs == old(errorDialogs)
      ensures outcome.Failed? ==>
        && status == "Error: " + outcome.message && errorDialogs == old(errorDialogs) + [outcome.message]
      ensures !outcome.Processed? ==>
        && markdownText == old(markdownText) && markdownContent == old(markdownContent)
        && htmlContent == old(htmlContent) && previewHtml == old(previewHtml)
      ensures outcome.Processed? ==>
        && status == "Conversion completed" && errorDialogs == old(errorDialogs)
        && markdownContent == Assemble(outcome.response.pages)
        && Shows(markdownContent)
    {
      match outcome {
        case InvalidPath =>
          status := "Error: Invalid PDF file path";
        case Failed(message) =>
          status := "Error: " + message;
          errorDialogs := errorDialogs + [message];
        case Processed(response) =>
          FinishConversion(response);
      }
    }
  }
}
