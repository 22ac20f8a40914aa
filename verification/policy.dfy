/**
 The render policy of `appendChatPosts`: the work a page belongs to selects
 how a post's text is displayed. Work 0 and any unknown work always escape;
 works 1 and 2 show valid HTML raw; work 3 shows valid HTML through the
 allow-list filter; in works 1 to 3 text that fails the well-formedness check
 is escaped and flagged.

 The well-formedness check `isHtmlValid` hands the text to the browser's
 DOMParser; here it is the parameter `isValid`, about which nothing is
 assumed.
 */
module Policy {
  import opened Entities
  import opened AllowList
  import opened LineBreaks

  /** The HTML a post displays and whether it is shown as malformed input. */
  datatype Rendered = Rendered(html: string, isError: bool)

  /** The works whose policy checks well-formedness before showing markup. */
  predicate Validated(work: int)
  {
    work == 1 || work == 2 || work == 3
  }

  /** The policy branch of appendChatPosts for one post. */
  function Render(work: int, text: string, isValid: string -> bool): (r: Rendered)
    ensures r.isError <==> Validated(work) && !isValid(text)
    ensures r.isError || !Validated(work) ==> r.html == Escape(text)
    ensures (work == 1 || work == 2) && isValid(text) ==> r.html == text
    ensures work == 3 && isValid(text) ==> r.html == CustomXssFilter(text)
  {
    if work == 0 then
      Rendered(Escape(text), false)
    else if work == 1 then
      if !isValid(text) then Rendered(Escape(text), true) else Rendered(text, false)
    else if work == 2 then
      if !isValid(text) then Rendered(Escape(text), true) else Rendered(text, false)
    else if work == 3 then
      if !isValid(text) then Rendered(Escape(text), true) else Rendered(CustomXssFilter(text), false)
    else
      Rendered(Escape(text), false)
  }

  /** Whenever a post is escaped, on error or under the strict policy, its
      HTML holds no live delimiter and decodes back to exactly the text that
      was posted. */
  lemma EscapedRenderShowsText(work: int, text: string, isValid: string -> bool)
    requires Render(work, text, isValid).isError || !Validated(work)
    ensures var h := Render(work, text, isValid).html;
      (forall i | 0 <= i < |h| :: !Delimiter(h[i])) && Unescape(h) == text
  {
    UnescapeEscape(text);
  }

  /** Only works 1 to 3 can yield a live `<`: in every other work, and for
      every rejected text, the displayed HTML holds none. */
  lemma LiveMarkupNeedsValidPolicy(work: int, text: string, isValid: string -> bool)
    requires exists i | 0 <= i < |Render(work, text, isValid).html| :: Render(work, text, isValid).html[i] == '<'
    ensures Validated(work) && isValid(text)
  {
  }

  /** Under work 3 a valid text with no `<` displays exactly as under work 0:
      the filter has nothing to let through. */
  lemma FilterPolicyWithoutTags(text: string, isValid: string -> bool)
    requires isValid(text)
    requires forall i | 0 <= i < |text| :: text[i] != '<'
    ensures Render(3, text, isValid) == Render(0, text, isValid)
  {
    FilterWithoutLt(text);
  }

  /** Under works 1 and 2 a valid text is displayed raw, so `<b>hi</b>` stays
      a live bold tag. */
  lemma RawPolicyShowsBold(work: int, isValid: string -> bool)
    requires work == 1 || work == 2
    requires isValid("<b>hi</b>")
    ensures Render(work, "<b>hi</b>", isValid) == Rendered("<b>hi</b>", false)
  {
  }

  /** Under the escaping policy the shown HTML is `nl2br` of the escaped
      text, and it survives that pass: dropping the inserted `<br>` tags and
      decoding gives back the posted text. */
  lemma EscapedLinesShowText(work: int, text: string, isValid: string -> bool)
    requires !Validated(work)
    ensures Unescape(StripBreaks(Nl2Br(Render(work, text, isValid).html))) == text
  {
    var h := Render(work, text, isValid).html;
    StripNl2Br(h);
    UnescapeEscape(text);
  }
}
