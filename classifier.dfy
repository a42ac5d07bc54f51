/**
 * The category resolver of `classify_ticket`: from the reply text of the
 * language model and the caller's ordered list of categories it picks exactly
 * one category of that list. The rule chain is: exact (case-insensitive)
 * label match, then one pass over the categories that tries the
 * "internet and phone" domain check and the category's own keyword check,
 * then the fallback category.
 *
 * The model reply is an input here; the call that produces it is not modelled.
 */
module Classifier {
  import opened Text

  datatype Option<T> = None | Some(value: T)

  /** One selectable category, as the caller supplies it: `name` holds the
      record's "label" entry (`label` is a reserved word of Dafny). */
  datatype Category = Category(id: string, name: string)

  /** Lower-cased labels that mark the catch-all category. */
  const OtherLabels: seq<string> := ["other", "others", "general"]

  /** Reply fragments that send a reply to an "internet and phone" category. */
  const DomainWords: seq<string> := ["internet", "phone", "wifi", "network", "av", "a/v"]

  /** Words of a label that never serve as keywords. */
  const StopWords: seq<string> := ["and", "the", "a", "an", "or"]

  /** The quote characters stripped from the reply, in the order they are stripped. */
  const DoubleQuote: set<char> := {'"'}
  const SingleQuote: set<char> := {'\''}

  /**
   * The first position of `s` at which `p` holds: the prioritised rule chain
   * "first element in list order that passes" used by every loop of the resolver.
   */
  function FindFirst<T>(s: seq<T>, p: T -> bool): (r: Option<nat>)
    ensures r.Some? ==> r.value < |s| && p(s[r.value])
    ensures r.Some? ==> forall j :: 0 <= j < r.value ==> !p(s[j])
    ensures r.None? ==> forall j :: 0 <= j < |s| ==> !p(s[j])
  {
    if s == [] then None
    else if p(s[0]) then Some(0)
    else match FindFirst(s[1..], p)
      case None => None
      case Some(k) => Some(k + 1)
  }

  /** The search returns the first position that passes, whichever it is. */
  lemma {:induction false} FindFirstIsFirst<T>(s: seq<T>, p: T -> bool, k: nat)
    requires k < |s| && p(s[k])
    requires forall j :: 0 <= j < k ==> !p(s[j])
    ensures FindFirst(s, p) == Some(k)
  {
    if k > 0 {
      assert !p(s[0]);
      FindFirstIsFirst(s[1..], p, k - 1);
    }
  }

  /** When nothing passes, the search finds nothing. */
  lemma {:induction false} FindFirstNone<T>(s: seq<T>, p: T -> bool)
    requires forall j :: 0 <= j < |s| ==> !p(s[j])
    ensures FindFirst(s, p) == None
  {
    if s != [] {
      FindFirstNone(s[1..], p);
    }
  }

  // ---------------------------------------------------------------------------
  // Fallback choice

  predicate IsOtherLabel(name: string)
  {
    LowerStr(name) in OtherLabels
  }

  function OtherTest(): Category -> bool
  {
    (c: Category) => IsOtherLabel(c.name)
  }

  /** `k` is the position of the first catch-all category. */
  ghost predicate FirstOther(options: seq<Category>, k: int)
  {
    0 <= k < |options| && IsOtherLabel(options[k].name)
    && forall j :: 0 <= j < k ==> !IsOtherLabel(options[j].name)
  }

  /** The fallback category: the first one labelled "other", "others" or
      "general" in any letter case, and otherwise the first category. */
  function Fallback(options: seq<Category>): (r: Category)
    requires options != []
    ensures r in options
    ensures forall k :: FirstOther(options, k) ==> r == options[k]
    ensures (forall i :: 0 <= i < |options| ==> !IsOtherLabel(options[i].name)) ==> r == options[0]
  {
    match FindFirst(options, OtherTest())
    case Some(k) => options[k]
    case None => options[0]
  }

  /** The scan of the categories that picks the fallback, stopping at the
      first catch-all label. */
  method ChooseFallback(options: seq<Category>) returns (fallback: Category)
    requires options != []
    ensures fallback == Fallback(options)
  {
    var other: Option<Category> := None;
    var i := 0;
    while i < |options|
      invariant 0 <= i <= |options|
      invariant other == None
      invariant forall j :: 0 <= j < i ==> !IsOtherLabel(options[j].name)
    {
      if LowerStr(options[i].name) in OtherLabels {
        other := Some(options[i]);
        assert FirstOther(options, i);
        break;
      }
      i := i + 1;
    }
    fallback := if other.Some? then other.value else options[0];
  }

  // ---------------------------------------------------------------------------
  // Reply clean-up

  /** The reply with surrounding whitespace removed, then surrounding double
      quotes, then surrounding single quotes. */
  function CleanReply(reply: string): string
  {
    Strip(Strip(Strip(reply, Whitespace), DoubleQuote), SingleQuote)
  }

  /** The cleaned reply is a piece of the raw reply, cut out of it by removing
      only whitespace and quote characters, and it neither starts nor ends
      with a single quote. */
  lemma CleanReplyIsCut(reply: string)
    ensures IsTrimmedFrom(CleanReply(reply), reply, Whitespace + DoubleQuote + SingleQuote)
    ensures CleanReply(reply) == [] || (CleanReply(reply)[0] !in SingleQuote && CleanReply(reply)[|CleanReply(reply)| - 1] !in SingleQuote)
  {
    var a := Strip(reply, Whitespace);
    var b := Strip(a, DoubleQuote);
    StripSpec(reply, Whitespace);
    StripSpec(a, DoubleQuote);
    StripSpec(b, SingleQuote);
    TrimmedTwice(b, a, reply, Whitespace, DoubleQuote);
    TrimmedTwice(Strip(b, SingleQuote), b, reply, Whitespace + DoubleQuote, SingleQuote);
  }

  /** Whitespace uncovered by removing quotes stays: each strip runs once,
      in order, so `" \" Billing \" "` is cleaned to `" Billing "`. */
  lemma CleanReplyKeepsInnerSpace()
    ensures CleanReply(" \" Billing \" ") == " Billing "
  {
    var raw := " \" Billing \" ";
    var quoted := "\" Billing \"";
    var inner := " Billing ";
    assert TrimStart(raw, Whitespace) == TrimStart(raw[1..], Whitespace);
    assert raw[1..] == quoted + " ";
    assert TrimStart(quoted + " ", Whitespace) == quoted + " ";
    assert TrimEnd(quoted + " ", Whitespace) == TrimEnd((quoted + " ")[..|quoted|], Whitespace);
    assert (quoted + " ")[..|quoted|] == quoted;
    assert TrimEnd(quoted, Whitespace) == quoted;
    assert Strip(raw, Whitespace) == quoted;
    assert TrimStart(quoted, DoubleQuote) == TrimStart(quoted[1..], DoubleQuote);
    assert quoted[1..] == inner + "\"";
    assert TrimStart(inner + "\"", DoubleQuote) == inner + "\"";
    assert TrimEnd(inner + "\"", DoubleQuote) == TrimEnd((inner + "\"")[..|inner|], DoubleQuote);
    assert (inner + "\"")[..|inner|] == inner;
    assert TrimEnd(inner, DoubleQuote) == inner;
    assert Strip(quoted, DoubleQuote) == inner;
    assert TrimStart(inner, SingleQuote) == inner;
    assert TrimEnd(inner, SingleQuote) == inner;
  }

  // ---------------------------------------------------------------------------
  // Matching rules

  /** The label equals the cleaned reply when both are lower-cased. */
  predicate SameLabel(c: Category, classification: string)
  {
    LowerStr(c.name) == LowerStr(classification)
  }

  /** A lower-cased label names the combined "internet and phone" category. */
  predicate IsInternetAndPhone(labelLower: string)
  {
    Contains(labelLower, "internet") && Contains(labelLower, "phone")
  }

  predicate DomainMatch(c: Category, replyLower: string)
  {
    IsInternetAndPhone(LowerStr(c.name)) && ContainsAny(replyLower, DomainWords)
  }

  predicate IsKeyword(w: string)
  {
    |w| > 2 && w !in StopWords
  }

  /** The words of a label that take part in the keyword check, in order. */
  function Keywords(words: seq<string>): (r: seq<string>)
    ensures |r| <= |words|
    ensures forall w :: w in r <==> w in words && IsKeyword(w)
  {
    if words == [] then []
    else (if IsKeyword(words[0]) then [words[0]] else []) + Keywords(words[1..])
  }

  predicate KeywordMatch(c: Category, replyLower: string)
  {
    ContainsAny(replyLower, Keywords(Words(LowerStr(c.name))))
  }

  /** What one step of the heuristic pass tries for one category: its domain
      check first, then its keyword check. */
  predicate HeuristicMatch(c: Category, replyLower: string)
  {
    DomainMatch(c, replyLower) || KeywordMatch(c, replyLower)
  }

  ghost predicate FirstExact(options: seq<Category>, reply: string, k: int)
  {
    0 <= k < |options| && SameLabel(options[k], CleanReply(reply))
    && forall j :: 0 <= j < k ==> !SameLabel(options[j], CleanReply(reply))
  }

  ghost predicate NoExact(options: seq<Category>, reply: string)
  {
    forall j :: 0 <= j < |options| ==> !SameLabel(options[j], CleanReply(reply))
  }

  ghost predicate FirstHeuristic(options: seq<Category>, reply: string, k: int)
  {
    0 <= k < |options| && HeuristicMatch(options[k], LowerStr(CleanReply(reply)))
    && forall j :: 0 <= j < k ==> !HeuristicMatch(options[j], LowerStr(CleanReply(reply)))
  }

  ghost predicate NoHeuristic(options: seq<Category>, reply: string)
  {
    forall j :: 0 <= j < |options| ==> !HeuristicMatch(options[j], LowerStr(CleanReply(reply)))
  }

  function ExactTest(classification: string): Category -> bool
  {
    (c: Category) => SameLabel(c, classification)
  }

  function HeuristicTest(classificationLower: string): Category -> bool
  {
    (c: Category) => HeuristicMatch(c, classificationLower)
  }

  /**
   * The category chosen for a model reply: the first exact match, else the
   * first category that passes its domain or keyword check, else the
   * fallback. It is always one of the options.
   */
  function Classify(options: seq<Category>, reply: string): (r: Category)
    requires options != []
    ensures r in options
  {
    var classification := CleanReply(reply);
    match FindFirst(options, ExactTest(classification))
    case Some(k) => options[k]
    case None =>
      match FindFirst(options, HeuristicTest(LowerStr(classification)))
      case Some(k) => options[k]
      case None => Fallback(options)
  }

  /** Exact match wins: the first category whose label equals the cleaned
      reply up to letter case is chosen, and no heuristic is consulted. */
  lemma ClassifyExact(options: seq<Category>, reply: string, k: nat)
    requires FirstExact(options, reply, k)
    ensures Classify(options, reply) == options[k]
  {
    FindFirstIsFirst(options, ExactTest(CleanReply(reply)), k);
  }

  /** Without an exact match, the first category (in list order) that passes
      either its domain check or its keyword check is chosen. */
  lemma ClassifyHeuristic(options: seq<Category>, reply: string, k: nat)
    requires NoExact(options, reply) && FirstHeuristic(options, reply, k)
    ensures Classify(options, reply) == options[k]
  {
    var classification := CleanReply(reply);
    FindFirstNone(options, ExactTest(classification));
    FindFirstIsFirst(options, HeuristicTest(LowerStr(classification)), k);
  }

  /** Without an exact match and without a heuristic hit, the fallback is chosen. */
  lemma ClassifyFallback(options: seq<Category>, reply: string)
    requires options != []
    requires NoExact(options, reply) && NoHeuristic(options, reply)
    ensures Classify(options, reply) == Fallback(options)
  {
    var classification := CleanReply(reply);
    FindFirstNone(options, ExactTest(classification));
    FindFirstNone(options, HeuristicTest(LowerStr(classification)));
  }

  /** The three cases above cover every reply. */
  lemma ClassifyCases(options: seq<Category>, reply: string)
    requires options != []
    ensures (exists k :: FirstExact(options, reply, k))
         || (NoExact(options, reply) && exists k :: FirstHeuristic(options, reply, k))
         || (NoExact(options, reply) && NoHeuristic(options, reply))
  {
    var classification := CleanReply(reply);
    match FindFirst(options, ExactTest(classification)) {
      case Some(k) =>
        assert FirstExact(options, reply, k);
      case None =>
        match FindFirst(options, HeuristicTest(LowerStr(classification))) {
          case Some(k) =>
            assert FirstHeuristic(options, reply, k);
          case None =>
        }
    }
  }

  /** One step of the heuristic pass: the domain check of the category, and
      then its keyword check. */
  method CategoryHit(category: Category, classificationLower: string) returns (hit: bool)
    ensures hit <==> HeuristicMatch(category, classificationLower)
  {
    var categoryLower := LowerStr(category.name);
    if Contains(categoryLower, "internet") && Contains(categoryLower, "phone") {
      if ContainsAny(classificationLower, DomainWords) {
        return true;
      }
    }
    var categoryWords := Keywords(Words(categoryLower));
    hit := ContainsAny(classificationLower, categoryWords);
  }

  /** The exact-match loop: the position of the first category whose label
      equals the cleaned reply up to letter case. */
  method ExactMatchIndex(options: seq<Category>, classification: string) returns (k: Option<nat>)
    ensures k == FindFirst(options, ExactTest(classification))
  {
    for i := 0 to |options|
      invariant forall j :: 0 <= j < i ==> !SameLabel(options[j], classification)
    {
      if LowerStr(options[i].name) == LowerStr(classification) {
        FindFirstIsFirst(options, ExactTest(classification), i);
        return Some(i);
      }
    }
    FindFirstNone(options, ExactTest(classification));
    return None;
  }

  /** The combined heuristic loop: the position of the first category that
      passes its domain check or its keyword check. */
  method HeuristicMatchIndex(options: seq<Category>, classificationLower: string) returns (k: Option<nat>)
    ensures k == FindFirst(options, HeuristicTest(classificationLower))
  {
    for i := 0 to |options|
      invariant forall j :: 0 <= j < i ==> !HeuristicMatch(options[j], classificationLower)
    {
      var hit := CategoryHit(options[i], classificationLower);
      if hit {
        FindFirstIsFirst(options, HeuristicTest(classificationLower), i);
        return Some(i);
      }
    }
    FindFirstNone(options, HeuristicTest(classificationLower));
    return None;
  }

  /**
   * `classify_ticket` once the model has replied: the fallback scan, the
   * clean-up of the reply, the exact-match loop and the heuristic loop, each
   * loop returning as soon as a category qualifies.
   */
  method ClassifyTicket(options: seq<Category>, reply: string) returns (r: Category)
    requires options != []
    ensures r == Classify(options, reply)
  {
    var fallback := ChooseFallback(options);
    var classification := CleanReply(reply);
    var exact := ExactMatchIndex(options, classification);
    if exact.Some? {
      return options[exact.value];
    }
    var heuristic := HeuristicMatchIndex(options, LowerStr(classification));
    if heuristic.Some? {
      return options[heuristic.value];
    }
    return fallback;
  }

  // ---------------------------------------------------------------------------
  // Numbered category list of the prompt

  /** The prompt line of the category at position `i`. */
  function NumberedLine(i: nat, name: string): string
  {
    Decimal(i + 1) + ". " + name
  }

  function NumberedLines(options: seq<Category>): (lines: seq<string>)
    ensures |lines| == |options|
    ensures forall i :: 0 <= i < |options| ==> lines[i] == NumberedLine(i, options[i].name)
  {
    seq(|options|, i requires 0 <= i < |options| => NumberedLine(i, options[i].name))
  }

  /** The category list shown to the model: the numbered lines joined by newlines. */
  function CategoriesText(options: seq<Category>): string
  {
    Join(NumberedLines(options), '\n')
  }

  /**
   * When no label contains a newline, the list text has exactly one line per
   * category, in input order, and line `i` reads back as number `i + 1`
   * followed by ". " and the label.
   */
  lemma CategoriesTextLines(options: seq<Category>)
    requires options != []
    requires forall i :: 0 <= i < |options| ==> '\n' !in options[i].name
    ensures |SplitOn(CategoriesText(options), '\n')| == |options|
    ensures forall i :: 0 <= i < |options| ==>
      var line := SplitOn(CategoriesText(options), '\n')[i];
      var digits := Decimal(i + 1);
      line == digits + ". " + options[i].name && ParseDecimal(digits) == i + 1
  {
    var lines := NumberedLines(options);
    forall i | 0 <= i < |lines|
      ensures '\n' !in lines[i] && ParseDecimal(Decimal(i + 1)) == i + 1
    {
      assert lines[i] == Decimal(i + 1) + ". " + options[i].name;
      ParseDecimalOfDecimal(i + 1);
    }
    SplitJoin(lines, '\n');
  }
}
