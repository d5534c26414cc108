/** The invite field's change handler (PurchaseForm.tsx:77-88): the raw text
    is split on `,`, every token the address pattern accepts is pushed onto
    a fresh list in input order, and that list replaces `emails` in the draft. */
module EmailExtraction {
  import opened PurchaseTypes
  import opened Sequences
  import opened JsText
  import opened EmailSyntax

  /** The addresses the handler keeps from `raw`. */
  function ExtractEmails(raw: string): seq<string>
  {
    Filter(IsEmail, Split(raw, ','))
  }

  /** The handler itself: it loops over the tokens, pushing the accepted
      ones, and emits the draft with `emails` replaced. */
  method HandleEmailInput(value: Purchase, raw: string) returns (draft: Purchase)
    ensures draft == value.(emails := ExtractEmails(raw))
  {
    var tokens := Split(raw, ',');
    var validated: seq<string> := [];
    var i := 0;
    while i < |tokens|
      invariant 0 <= i <= |tokens|
      invariant validated == Filter(IsEmail, tokens[..i])
    {
      FilterPrefixStep(IsEmail, tokens, i);
      if IsEmail(tokens[i]) {
        validated := validated + [tokens[i]];
      }
      i := i + 1;
    }
    assert tokens[..i] == tokens;
    draft := value.(emails := validated);
  }

  /** Every kept address holds an `@`, holds no `,`, and matches the pattern as written. */
  lemma ExtractedAreAddresses(raw: string)
    ensures forall e :: e in ExtractEmails(raw) ==> '@' in e && ',' !in e && PatternMatches(e)
  {
    forall e | e in ExtractEmails(raw) ensures '@' in e && PatternMatches(e) {
      EmailHasAt(e);
      IsEmailIffPatternMatches(e);
    }
  }

  /** The kept addresses are the accepted tokens in input order, every copy
      of an accepted token kept and no copy of a rejected one. */
  lemma ExtractionKeepsOrderAndCopies(raw: string, t: string)
    ensures IsSubsequence(ExtractEmails(raw), Split(raw, ','))
    ensures multiset(ExtractEmails(raw))[t] == if IsEmail(t) then multiset(Split(raw, ','))[t] else 0
  {
    FilterIsSubsequence(IsEmail, Split(raw, ','));
    FilterCount(IsEmail, Split(raw, ','), t);
  }

  /** Text on either side of a comma is read independently. */
  lemma ExtractConcat(a: string, b: string)
    ensures ExtractEmails(a + "," + b) == ExtractEmails(a) + ExtractEmails(b)
  {
    SplitConcat(a, b, ',');
    FilterConcat(IsEmail, Split(a, ','), Split(b, ','));
  }

  /** Comma-joined addresses are read back exactly, duplicates included. */
  lemma ExtractJoined(es: seq<string>)
    requires forall e :: e in es ==> IsEmail(e) && ',' !in e
    ensures ExtractEmails(Join(es, ',')) == es
  {
    if es == [] {
      assert Split("", ',') == [""];
      NoAtRejected("");
    } else {
      SplitJoin(es, ',');
      FilterAllPass(IsEmail, es);
    }
  }

  /** A single address without a comma is read back as itself. */
  lemma ExtractSingle(e: string)
    requires IsEmail(e) && ',' !in e
    ensures ExtractEmails(e) == [e]
  {
    ExtractJoined([e]);
  }

  /** Tokens are not trimmed: an address after ", " is dropped. */
  lemma SpaceAfterCommaDropsAddress(a: string, b: string)
    requires ',' !in b
    ensures ExtractEmails(a + ", " + b) == ExtractEmails(a)
  {
    var rest := " " + b;
    assert a + ", " + b == a + "," + rest;
    ExtractConcat(a, rest);
    assert ',' !in rest;
    assert FirstIndex(rest, ',') == |rest|;
    assert Split(rest, ',') == [rest];
    LeadingSpaceRejected(rest);
  }

  /** A single malformed token without a comma yields nothing. */
  lemma ExtractRejected(bad: string)
    requires !IsEmail(bad) && ',' !in bad
    ensures ExtractEmails(bad) == []
  {
    assert FirstIndex(bad, ',') == |bad|;
    assert Split(bad, ',') == [bad];
  }

  /** A malformed token between two stretches of text is dropped silently. */
  lemma MalformedTokenDropped(a: string, bad: string, c: string)
    requires !IsEmail(bad) && ',' !in bad
    ensures ExtractEmails(a + "," + (bad + "," + c)) == ExtractEmails(a) + ExtractEmails(c)
  {
    ExtractRejected(bad);
    ExtractConcat(bad, c);
    ExtractConcat(a, bad + "," + c);
  }

  /** A comma-free text without `@`, such as a lone quote, yields no address. */
  lemma NoAtDropped(t: string)
    requires '@' !in t && ',' !in t
    ensures ExtractEmails(t) == []
  {
    NoAtRejected(t);
    ExtractRejected(t);
  }

  /** `"@d`, what follows the comma of `","@d`, is no address either. */
  lemma QuoteAtDomainDropped(d: string)
    requires Domain(d) && ',' !in d
    ensures ExtractEmails("\"" + "@" + d) == []
  {
    DomainHasNoAt(d);
    LoneQuoteRejected(d);
    ExtractRejected("\"" + "@" + d);
  }

  /** A valid address is not always read back: in `","@d` the quoted
      local part holds the separator, so the split cuts the address into
      `"` and `"@d`, and the pattern rejects both. */
  lemma QuotedCommaNotReadBack(d: string)
    requires Domain(d) && ',' !in d
    ensures IsEmail("\"" + "," + "\"" + "@" + d)
    ensures ExtractEmails("\"" + "," + "\"" + "@" + d) == []
  {
    QuotedLocalPartAccepted(",", d);
    var quote := "\"";
    AppendAssoc(quote + ",", quote, "@");
    AppendAssoc(quote + ",", quote + "@", d);
    ExtractConcat(quote, quote + "@" + d);
    NoAtDropped(quote);
    QuoteAtDomainDropped(d);
  }

  /** The instance `","@a.bc`: valid, yet read back as nothing. */
  lemma QuotedCommaSample()
    ensures IsEmail("\"" + "," + "\"" + "@" + "a.bc")
    ensures ExtractEmails("\"" + "," + "\"" + "@" + "a.bc") == []
  {
    SampleDomain();
    QuotedCommaNotReadBack("a.bc");
  }
}
