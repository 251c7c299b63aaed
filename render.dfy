/** The fixed text of the two HTML pages that `update_result` builds, and the
    characters they are made of. */
module Templates {

  const MathJaxScriptUrl := "https://cdn.jsdelivr.net" + "/npm/mathjax@3/es5/" + "tex-mml-chtml.js"

  /** The standalone page up to the script's source URL. */
  const ScriptOpening :=
    "<!DOCTYPE html>"
    + "<html>"
    + "<head>"
    + "    <script type=\"text/javascript\" id=\"MathJax-script\" async "
    + "        src=\""

  /** The standalone page from the end of the script's source URL up to the fragment:
      the MathJax configuration and the style sheet. */
  const ScriptClosing :=
    "\">"
    + "    </script>"
    + "    <script>"
    + "    window.MathJax = {"
    + "        tex: {"
    + "            inlineMath: [['$', '$'], ['\\\\(', '\\\\)']],"
    + "            displayMath: [['$$', '$$'], ['\\\\[', '\\\\]']],"
    + "            processEscapes: true"
    + "        },"
    + "        svg: {"
    + "            fontCache: 'global'"
    + "        }"
    + "    };"
    + "    </script>"
    + "    <style>"
    + "        body { font-family: Arial, sans-serif; line-height: 1.6; padding: 20px; }"
    + "        pre { background-color: #f5f5f5; padding: 10px; border-radius: 5px; }"
    + "        code { font-family: monospace; }"
    + "        img { max-width: 100%; }"
    + "        table { border-collapse: collapse; width: 100%; }"
    + "        th, td { border: 1px solid #ddd; padding: 8px; }"
    + "        th { background-color: #f2f2f2; }"
    + "    </style>"
    + "</head>"
    + "<body>"

  /** Everything of the standalone page before the fragment. */
  const StandaloneHead := ScriptOpening + MathJaxScriptUrl + ScriptClosing

  const StandaloneTail := "</body>" + "</html>"

  // The preview page's style sheet, one constant per rule, so that what the head is
  // made of can be stated rule by rule. A long rule is written as short literal
  // pieces that concatenate to the rule's text.

  const PreviewBodyRule := "body { font-family:" + " Arial, sans-serif;" + " line-height: 1.6; }"
  const PreviewPreRule := "pre { background-color:" + " #f5f5f5; padding:" + " 10px; border-radius:" + " 5px; }"
  const PreviewCodeRule := "code { font-family:" + " monospace; }"
  const PreviewImgRule := "img { max-width: 100%; }"
  const PreviewTableRule := "table {" + " border-collapse:" + " collapse; width: 100%;" + " }"
  const PreviewCellRule := "th, td { border: 1px" + " solid #ddd; padding:" + " 8px; }"

  /** Everything of the preview page before the fragment. */
  const PreviewHead :=
    "<html><head>" + "<style>"
    + PreviewBodyRule + PreviewPreRule + PreviewCodeRule + PreviewImgRule
    + PreviewTableRule + PreviewCellRule
    + "</style></head><body>"

  const PreviewTail := "</body></html>"

  lemma NoAtSignInBodyRule()
    ensures '@' !in PreviewBodyRule
  {
  }

  lemma NoAtSignInPreRule()
    ensures '@' !in PreviewPreRule
  {
  }

  lemma NoAtSignInCodeRule()
    ensures '@' !in PreviewCodeRule
  {
  }

  lemma NoAtSignInImgRule()
    ensures '@' !in PreviewImgRule
  {
  }

  lemma NoAtSignInTableRule()
    ensures '@' !in PreviewTableRule
  {
  }

  lemma NoAtSignInCellRule()
    ensures '@' !in PreviewCellRule
  {
  }

  lemma NoAtSignAroundRules()
    ensures '@' !in "<html><head>" + "<style>" && '@' !in "</style></head><body>"
  {
  }

  /** The MathJax URL holds an `@`. */
  lemma UrlHasAtSign()
    ensures MathJaxScriptUrl[36] == '@'
  {
  }

  /** The preview's head holds no `@`. */
  lemma NoAtSignInPreviewHead()
    ensures '@' !in PreviewHead
  {
    NoAtSignInBodyRule();
    NoAtSignInPreRule();
    NoAtSignInCodeRule();
    NoAtSignInImgRule();
    NoAtSignInTableRule();
    NoAtSignInCellRule();
    NoAtSignAroundRules();
  }

  /** The MathJax URL holds no `<`. */
  lemma UrlLacksOpeningAngle()
    ensures '<' !in MathJaxScriptUrl
  {
  }

  /** The MathJax URL holds no `>`. */
  lemma UrlLacksClosingAngle()
    ensures '>' !in MathJaxScriptUrl
  {
  }

  /** The preview's head ends in `>` and its tail begins with `<`. */
  lemma PreviewEdges()
    ensures PreviewHead[|PreviewHead| - 1] == '>'
    ensures |PreviewTail| > 0 && PreviewTail[0] == '<'
  {
  }
}

/** The two HTML pages `update_result` builds around the fragment that the markdown
    converter produces: a standalone page that loads MathJax, and a simpler page
    for the in-app preview. */
module Render {
  import opened Strings
  import opened Ocr
  import opened Templates

  /** `self.html_content`, kept for the browser view. */
  function StandaloneHtml(fragment: string): string {
    StandaloneHead + fragment + StandaloneTail
  }

  /** `simple_html`, shown in the preview widget. */
  function PreviewHtml(fragment: string): string {
    PreviewHead + fragment + PreviewTail
  }

  /** The text between `head` and `tail`, when `html` has exactly that form. */
  function Between(html: string, head: string, tail: string): (r: Option<string>)
    ensures r.Some? ==> html == head + r.value + tail
  {
    if |head| + |tail| <= |html| && html[..|head|] == head && html[|html| - |tail|..] == tail
    then Some(html[|head|..|html| - |tail|])
    else None
  }

  /** `Between` finds the middle of every text wrapped in the head and tail. */
  lemma BetweenOfWrapped(head: string, x: string, tail: string)
    ensures Between(head + x + tail, head, tail) == Some(x)
  {
    var html := head + x + tail;
    assert html[..|head|] == head;
    assert html[|html| - |tail|..] == tail;
    assert html[|head|..|html| - |tail|] == x;
  }

  /** Both pages carry the converted fragment unchanged between their fixed parts. */
  lemma FragmentRecovered(fragment: string)
    ensures Between(StandaloneHtml(fragment), StandaloneHead, StandaloneTail) == Some(fragment)
    ensures Between(PreviewHtml(fragment), PreviewHead, PreviewTail) == Some(fragment)
  {
    BetweenOfWrapped(StandaloneHead, fragment, StandaloneTail);
    BetweenOfWrapped(PreviewHead, fragment, PreviewTail);
  }

  lemma ContainsItself(s: string)
    ensures Contains(s, s)
  {
    assert s[..|s|] == s;
  }

  /** The standalone page always loads MathJax, whatever the fragment. */
  lemma StandaloneLoadsMathJax(fragment: string)
    ensures Contains(StandaloneHead, MathJaxScriptUrl)
    ensures Contains(StandaloneHtml(fragment), MathJaxScriptUrl)
  {
    ContainsItself(MathJaxScriptUrl);
    ContainsInPrefix(MathJaxScriptUrl, ScriptClosing, MathJaxScriptUrl);
    ContainsInSuffix(ScriptOpening, MathJaxScriptUrl + ScriptClosing, MathJaxScriptUrl);
    AppendAssociative(ScriptOpening, MathJaxScriptUrl, ScriptClosing);
    ContainsInPrefix(StandaloneHead, fragment, MathJaxScriptUrl);
    ContainsInPrefix(StandaloneHead + fragment, StandaloneTail, MathJaxScriptUrl);
  }

  /** The preview's fixed parts never mention the MathJax script, and no copy of it
      can begin inside the preview's head. */
  lemma PreviewPartsLackUrl()
    ensures !Contains(PreviewHead, MathJaxScriptUrl) && !Contains(PreviewTail, MathJaxScriptUrl)
    ensures NoStartWithin(PreviewHead, MathJaxScriptUrl)
  {
    var url := MathJaxScriptUrl;
    UrlHasAtSign();
    NoAtSignInPreviewHead();
    UrlLacksClosingAngle();
    PreviewEdges();
    if Contains(PreviewHead, url) {
      ContainedCharsOccur(PreviewHead, url, 36);
    }
    ContainsLength(PreviewTail, url);
    NoStartWithinByLastChar(PreviewHead, url);
  }

  /** The preview refers to the MathJax script exactly when the converted fragment
      itself does. */
  lemma PreviewLoadsNoMathJax(fragment: string)
    ensures !Contains(PreviewHead, MathJaxScriptUrl) && !Contains(PreviewTail, MathJaxScriptUrl)
    ensures Contains(PreviewHtml(fragment), MathJaxScriptUrl) <==> Contains(fragment, MathJaxScriptUrl)
  {
    var url := MathJaxScriptUrl;
    PreviewPartsLackUrl();
    UrlLacksOpeningAngle();
    PreviewEdges();
    AppendAssociative(PreviewHead, fragment, PreviewTail);
    ContainsPastPrefix(PreviewHead, fragment + PreviewTail, url);
    ContainsBeforeSuffix(fragment, PreviewTail, url);
    ContainsInPrefix(fragment, PreviewTail, url);
    ContainsInSuffix(PreviewHead, fragment + PreviewTail, url);
  }
}
