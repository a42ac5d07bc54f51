/**
 * Worked replies for small category lists: which rule of the chain fires and
 * which category comes back. Each scenario is stated on its literal inputs
 * and proved by a lemma whose parameters are bound to those inputs, so that
 * the verifier reasons about the definitions step by step instead of
 * evaluating all of them on the literals at once.
 */
module Scenarios {
  import opened Text
  import opened Classifier

  const Billing := Category("1", "Billing")
  const Other := Category("2", "Other")
  const InternetPhone := Category("1", "Internet & Phone")
  const Travel := Category("2", "Travel")

  // ---------------------------------------------------------------------------
  // Facts the scenarios are built from

  /** A strip leaves alone a string whose ends are outside the set. */
  lemma StripUntouched(s: string, cs: set<char>)
    requires s != [] && s[0] !in cs && s[|s| - 1] !in cs
    ensures Strip(s, cs) == s
  {
  }

  /** A reply with no surrounding whitespace or quotes is used as it is. */
  lemma CleanUntouched(reply: string)
    requires reply != []
    requires !IsSpace(reply[0]) && !IsSpace(reply[|reply| - 1])
    requires reply[0] != '"' && reply[|reply| - 1] != '"'
    requires reply[0] != '\'' && reply[|reply| - 1] != '\''
    ensures CleanReply(reply) == reply
  {
    StripUntouched(reply, Whitespace);
    StripUntouched(reply, DoubleQuote);
    StripUntouched(reply, SingleQuote);
  }

  /** A string without whitespace is its own single word. */
  lemma WordsOfWord(w: string)
    requires w != [] && NoWhitespace(w)
    ensures Words(w) == [w]
  {
    WordsCons([], w, []);
    assert [] + w + [] == w;
    WordsOfBlank([]);
  }

  /** A one-word label whose lower-cased form is a keyword has that keyword only. */
  lemma SingleKeyword(c: Category, w: string)
    requires LowerStr(c.name) == w && w != [] && NoWhitespace(w) && IsKeyword(w)
    ensures Keywords(Words(LowerStr(c.name))) == [w]
  {
    WordsOfWord(w);
    assert Keywords([w]) == [w] + Keywords([]);
  }

  /** A category whose only keyword is longer than the reply fails its keyword check. */
  lemma NoKeywordHit(c: Category, lower: string, w: string)
    requires Keywords(Words(LowerStr(c.name))) == [w] && |w| > |lower|
    ensures !KeywordMatch(c, lower)
  {
    var kw := Keywords(Words(LowerStr(c.name)));
    NotContainsLonger(lower, w);
    assert kw[1..] == [];
    assert !ContainsAny(lower, kw[1..]);
  }

  /** A word written inside a text occurs, lower-cased, in the lower-cased text. */
  lemma MentionsWord(a: string, word: string, b: string)
    ensures Contains(LowerStr(a + word + b), LowerStr(word))
  {
    LowerStrAppend(a + word, b);
    LowerStrAppend(a, word);
    ContainsInside(LowerStr(a), LowerStr(word), LowerStr(b));
  }

  /** A reply that mentions a domain word passes the domain part of the check. */
  lemma MentionsDomainWord(a: string, word: string, b: string)
    requires word in DomainWords && LowerStr(word) == word
    ensures ContainsAny(LowerStr(a + word + b), DomainWords)
  {
    MentionsWord(a, word, b);
    ContainsAnyIff(LowerStr(a + word + b), DomainWords);
  }

  /** "Internet & Phone" names the combined "internet and phone" category. */
  lemma InternetPhoneLabel(name: string)
    requires name == "Internet & Phone"
    ensures IsInternetAndPhone(LowerStr(name))
  {
    LabelMentions(name, [], "Internet", " & Phone", "internet");
    LabelMentions(name, "Internet & ", "Phone", [], "phone");
  }

  lemma LabelMentions(name: string, a: string, w: string, b: string, lower: string)
    requires name == "Internet & Phone"
    requires || (a == [] && w == "Internet" && b == " & Phone" && lower == "internet")
             || (a == "Internet & " && w == "Phone" && b == [] && lower == "phone")
    ensures Contains(LowerStr(name), lower)
  {
    LowerWord(w, lower);
    assert name == a + w + b;
    MentionsWord(a, w, b);
  }

  lemma LowerWord(w: string, lower: string)
    requires || (w == "Internet" && lower == "internet")
             || (w == "Phone" && lower == "phone")
             || (w == "Billing" && lower == "billing")
             || (w == "Other" && lower == "other")
             || (w == lower && (w == "billing" || w == "wifi" || w == "av"))
    ensures LowerStr(w) == lower
  {
  }

  /** Labels of another length than the cleaned reply cannot match it exactly. */
  lemma NoExactByLength(options: seq<Category>, reply: string)
    requires forall j :: 0 <= j < |options| ==> |options[j].name| != |CleanReply(reply)|
    ensures NoExact(options, reply)
  {
  }

  // ---------------------------------------------------------------------------
  // Scenarios

  /** A reply that is exactly a label picks that category. */
  lemma ExactReply()
    ensures Classify([Billing, Other], "Billing") == Billing
  {
    ExactReplyAt([Billing, Other], "Billing");
  }

  lemma ExactReplyAt(options: seq<Category>, reply: string)
    requires options == [Billing, Other] && reply == "Billing"
    ensures Classify(options, reply) == Billing
  {
    CleanUntouched(reply);
    ClassifyExact(options, reply, 0);
  }

  /** A reply that only mentions a label's word picks that category by its
      keyword check. */
  lemma KeywordReply()
    ensures Classify([Billing, Other], "I think Billing?") == Billing
  {
    KeywordReplyAt([Billing, Other], "I think Billing?");
  }

  lemma KeywordReplyAt(options: seq<Category>, reply: string)
    requires options == [Billing, Other] && reply == "I think Billing?"
    ensures Classify(options, reply) == Billing
  {
    CleanUntouched(reply);
    NoExactByLength(options, reply);
    BillingKeyword(Billing.name);
    ReplyParts(reply, "I think ", "Billing", "?");
    MentionsWord("I think ", "Billing", "?");
    assert KeywordMatch(Billing, LowerStr(reply));
    ClassifyHeuristic(options, reply, 0);
  }

  lemma BillingKeyword(name: string)
    requires name == "Billing"
    ensures LowerStr(name) == "billing"
    ensures Keywords(Words(LowerStr(name))) == ["billing"]
  {
    LowerWord(name, "billing");
    KeywordWord("billing");
    SingleKeyword(Category("1", name), "billing");
  }

  /** The one-word labels used here are keywords. */
  lemma KeywordWord(w: string)
    requires w == "billing" || w == "other" || w == "travel"
    ensures w != [] && NoWhitespace(w) && IsKeyword(w)
  {
  }

  /** How the scenario replies are made up of a word and its surroundings. */
  lemma ReplyParts(reply: string, a: string, w: string, b: string)
    requires || (reply == "I think Billing?" && a == "I think " && w == "Billing" && b == "?")
             || (reply == "phone billing" && a == "phone " && w == "billing" && b == [])
             || (reply == "wifi issues" && a == [] && w == "wifi" && b == " issues")
             || (reply == "travel plans" && a == "tr" && w == "av" && b == "el plans")
    ensures reply == a + w + b
  {
  }

  /** The heuristic pass interleaves the two checks per category: an earlier
      category's keyword hit wins over a later "internet and phone" category,
      although the reply also names a domain word. */
  lemma KeywordBeforeLaterDomain()
    ensures Classify([Billing, InternetPhone], "phone billing") == Billing
  {
    KeywordBeforeLaterDomainAt([Billing, InternetPhone], "phone billing");
  }

  lemma KeywordBeforeLaterDomainAt(options: seq<Category>, reply: string)
    requires options == [Billing, InternetPhone] && reply == "phone billing"
    ensures Classify(options, reply) == Billing
  {
    CleanUntouched(reply);
    NoExactByLength(options, reply);
    BillingKeyword(Billing.name);
    ReplyParts(reply, "phone ", "billing", []);
    LowerWord("billing", "billing");
    MentionsWord("phone ", "billing", []);
    assert KeywordMatch(Billing, LowerStr(reply));
    ClassifyHeuristic(options, reply, 0);
  }

  /** The domain check: a reply that mentions "wifi" goes to the
      "internet and phone" category. */
  lemma DomainReply()
    ensures Classify([InternetPhone, Other], "wifi issues") == InternetPhone
  {
    DomainReplyAt([InternetPhone, Other], "wifi issues");
  }

  lemma DomainReplyAt(options: seq<Category>, reply: string)
    requires options == [InternetPhone, Other] && reply == "wifi issues"
    ensures Classify(options, reply) == InternetPhone
  {
    CleanUntouched(reply);
    NoExactByLength(options, reply);
    InternetPhoneLabel(InternetPhone.name);
    ReplyParts(reply, [], "wifi", " issues");
    LowerWord("wifi", "wifi");
    MentionsDomainWord([], "wifi", " issues");
    assert DomainMatch(InternetPhone, LowerStr(reply));
    ClassifyHeuristic(options, reply, 0);
  }

  /** The domain words are matched as fragments, not as words: "av" inside
      "travel" sends a travel reply to an "internet and phone" category listed
      first, before the "Travel" category's own keyword check is reached. */
  lemma AvInsideTravel()
    ensures Classify([InternetPhone, Travel], "travel plans") == InternetPhone
  {
    AvInsideTravelAt([InternetPhone, Travel], "travel plans");
  }

  lemma AvInsideTravelAt(options: seq<Category>, reply: string)
    requires options == [InternetPhone, Travel] && reply == "travel plans"
    ensures Classify(options, reply) == InternetPhone
  {
    CleanUntouched(reply);
    NoExactByLength(options, reply);
    InternetPhoneLabel(InternetPhone.name);
    ReplyParts(reply, "tr", "av", "el plans");
    LowerWord("av", "av");
    MentionsDomainWord("tr", "av", "el plans");
    assert DomainMatch(InternetPhone, LowerStr(reply));
    ClassifyHeuristic(options, reply, 0);
  }

  /** When no rule fires, the catch-all category is chosen although it is not
      the first one. */
  lemma FallbackToOther()
    ensures Classify([Billing, Other], "Help") == Other
  {
    FallbackToOtherAt([Billing, Other], "Help");
  }

  lemma FallbackToOtherAt(options: seq<Category>, reply: string)
    requires options == [Billing, Other] && reply == "Help"
    ensures Classify(options, reply) == Other
  {
    CleanUntouched(reply);
    NoExactByLength(options, reply);
    NoRuleFires(options, LowerStr(CleanReply(reply)));
    ClassifyFallback(options, reply);
    OtherIsFallback(options);
  }

  /** Neither "Billing" nor "Other" passes a check against a four-letter reply. */
  lemma NoRuleFires(options: seq<Category>, lower: string)
    requires options == [Billing, Other] && |lower| == 4
    ensures forall j :: 0 <= j < |options| ==> !HeuristicMatch(options[j], lower)
  {
    NoHitShortReply(options[0], lower);
    NoHitShortReply(options[1], lower);
  }

  lemma NoHitShortReply(c: Category, lower: string)
    requires c == Billing || c == Other
    requires |lower| == 4
    ensures !HeuristicMatch(c, lower)
  {
    if c == Billing {
      BillingKeyword(c.name);
      NoHeuristicHit(c, lower, "billing");
    } else {
      OtherKeyword(c.name);
      NoHeuristicHit(c, lower, "other");
    }
  }

  /** A one-keyword label too short to mention "internet", against a reply
      shorter than its keyword, passes neither check. */
  lemma NoHeuristicHit(c: Category, lower: string, w: string)
    requires LowerStr(c.name) == w && |w| < |"internet"|
    requires Keywords(Words(w)) == [w] && |w| > |lower|
    ensures !HeuristicMatch(c, lower)
  {
    NoKeywordHit(c, lower, w);
    NotContainsLonger(w, "internet");
  }

  lemma OtherIsFallback(options: seq<Category>)
    requires options == [Billing, Other]
    ensures Fallback(options) == Other
  {
    LowerWord("Billing", "billing");
    LowerWord("Other", "other");
    assert FirstOther(options, 1);
  }

  lemma OtherKeyword(name: string)
    requires name == "Other"
    ensures LowerStr(name) == "other"
    ensures Keywords(Words(LowerStr(name))) == ["other"]
  {
    LowerWord(name, "other");
    KeywordWord("other");
    SingleKeyword(Category("2", name), "other");
  }
}
