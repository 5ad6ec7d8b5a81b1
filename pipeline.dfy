/** `_vistr2xml`: the rewrite passes that turn exported VI strings into
    XML, applied in their fixed order. */
module Pipeline {
  import opened Text
  import opened Rewrites
  import opened Entities

  /** Part-text removal, attribute quoting, de-embedding, closing, the
      predefined entities and styled text, in that order. */
  function VIStrToXML(s: string): string {
    StyledText(PredefinedEntities(CloseElements(DeEmbedElements(AddQuotes(RemovePartText(s))))))
  }

  /** `_vistr2xml` rebinding `vistr` once per pass. */
  method Repair(s: string) returns (r: string)
    ensures r == VIStrToXML(s)
  {
    r := RemovePartText(s);
    r := AddQuotes(r);
    r := DeEmbedElementsLoop(r);
    r := CloseElementsLoop(r);
    r := PredefinedEntitiesLoop(r);
    r := StyledText(r);
  }

  /** Text with no markup and nothing to escape: no `<`, `>`, `=`, `&` or `"`. */
  predicate Plain(s: string) {
    !Contains(s, '<') && !Contains(s, '>') && !Contains(s, '=') && !Contains(s, '&') && !Contains(s, '"')
  }

  /** Every pass leaves plain text as it is, so the pipeline does too. */
  lemma {:induction false} PlainTextUnchanged(s: string)
    requires Plain(s)
    ensures VIStrToXML(s) == s
  {
    AbsentLead(s, "<PART ");
    RemovePartTextUntouched(s);
    AddQuotesUntouched(s);
    AbsentLead(s, "<<");
    DeEmbedUntouched(s);
    CloseThroughUntouched(s, |UnclosedElements|);
    PredefinedEntitiesUntouched(s);
    AbsentLead(s, "<B>");
    StyledTextUntouched(s);
  }
}
