# Help-and-support ticket classifier — verified model

This project models the decision logic of a serverless function that
recommends a help-and-support category for a customer ticket. The caller
sends a description and an ordered list of categories (`{id, label}`
records). A language model is asked to name one category. Its reply is then
resolved to a category that is guaranteed to come from the caller's list.

The resolution is a prioritised chain:

1. the reply is cleaned: surrounding whitespace is stripped, then surrounding
   double quotes, then surrounding single quotes, each once and in that order;
2. **exact match**: the first category whose label equals the cleaned reply,
   ignoring letter case;
3. **heuristic pass**: one loop over the categories; for each one, first the
   "internet and phone" domain check (the label mentions both "internet" and
   "phone", and the reply mentions "internet", "phone", "wifi", "network",
   "av" or "a/v"), then the category's keyword check (the reply contains a
   word of the label longer than two characters that is not a stop word);
   the first category passing either check wins;
4. **fallback**: the first category labelled "other", "others" or "general"
   in any letter case, or else the first category.

Around the resolver sit the help-and-support service, which refuses a ticket
without description or options (400), reports a failed classification (500)
and answers a resolved one (200), and the entry point, which unwraps the
event and dispatches on the request type.

Files:

- `text.dfy` (module `Text`): the Python string operations the resolver
  uses — whitespace as `str.isspace()` defines it, `lower()`, `strip()`,
  `sub in s`, `any(...)`, `split()`, `"\n".join(...)`, and the decimal
  rendering of a number — each with a contract, an inverse or a reference
  definition.
- `classifier.dfy` (module `Classifier`): categories, the fallback scan, the
  reply clean-up, the matching rules, the specification function `Classify`,
  the loops of `classify_ticket` as methods proved equal to it, and the
  numbered category list of the prompt.
- `scenarios.dfy` (module `Scenarios`): worked replies showing which rule
  fires, including the interleaving of the heuristic pass and the effect of
  matching domain words as fragments.
- `handler.dfy` (module `Handler`): the response record, the help-and-support
  service and the entry point.

Worth knowing about the behaviour that is modelled:

- The domain words are matched as fragments of the reply, not as words, so
  "av" inside "travel" sends a travel reply to an "internet and phone"
  category that is listed first (`Scenarios.AvInsideTravel`).
- The heuristic pass is interleaved per category: an earlier category's
  keyword hit wins over a later "internet and phone" category even when the
  reply names a domain word (`Scenarios.KeywordBeforeLaterDomain`).
- The category list of the prompt has one line per category only as long as
  no label contains a newline; `Classifier.CategoriesTextLines` states the
  condition.

## Model

| member | source | states |
|---|---|---|
| Classifier.Fallback | lambda_function.py:31-36 | the fallback is one of the options; it is the first option whose lower-cased label is "other", "others" or "general", and the first option when there is none |
| Classifier.ChooseFallback | lambda_function.py:31-36 | the scan that stops at the first catch-all label returns exactly that fallback |
| Classifier.FindFirstIsFirst | lambda_function.py:74-76 | a first-match search returns the first position that passes, whichever it is |
| Classifier.FindFirstNone | lambda_function.py:88 | a first-match search over a list where nothing passes finds nothing |
| Classifier.CleanReplyIsCut | lambda_function.py:72 | the cleaned reply is a piece of the raw reply obtained by cutting only whitespace and quote characters from its ends, and it neither starts nor ends with a single quote |
| Classifier.CleanReplyKeepsInnerSpace | lambda_function.py:72 | each strip runs once and in order: whitespace exposed by removing the double quotes stays |
| Classifier.Keywords | lambda_function.py:84 | the keywords of a label are exactly its words longer than two characters that are not stop words |
| Classifier.Classify | lambda_function.py:74-88 | the chosen category is always one of the options |
| Classifier.ClassifyExact | lambda_function.py:74-76 | when some label equals the cleaned reply up to letter case, the first such option is chosen and no heuristic is consulted |
| Classifier.ClassifyHeuristic | lambda_function.py:78-86 | without an exact match, the first option in list order that passes its domain check or its keyword check is chosen |
| Classifier.ClassifyFallback | lambda_function.py:88 | without an exact match and without a heuristic hit, the fallback is chosen |
| Classifier.ClassifyCases | lambda_function.py:74-88 | every reply falls under one of the three cases above |
| Classifier.CategoryHit | lambda_function.py:80-86 | one step of the heuristic loop, domain check then keyword check, answers exactly whether the category passes |
| Classifier.ExactMatchIndex | lambda_function.py:74-76 | the exact-match loop returns the position of the first option whose label equals the cleaned reply up to case, or none |
| Classifier.HeuristicMatchIndex | lambda_function.py:78-86 | the heuristic loop returns the position of the first option passing either check, or none |
| Classifier.ClassifyTicket | lambda_function.py:31-88 | the method with its loops and early returns chooses exactly the category `Classify` specifies |
| Classifier.CategoriesTextLines | lambda_function.py:38-39 | when no label contains a newline, the list text splits back into exactly one line per option, and each line's number reads back as its position plus one |
| Text.LowerStr | lambda_function.py:75 | lower-casing keeps the length and lower-cases each character |
| Text.LowerStrAppend | lambda_function.py:78 | lower-casing distributes over concatenation |
| Text.TrimStartSpec | lambda_function.py:72 | left-stripping removes a prefix of set characters and keeps a rest that does not start with one |
| Text.TrimEndSpec | lambda_function.py:72 | right-stripping removes a suffix of set characters and keeps a rest that does not end with one |
| Text.StripSpec | lambda_function.py:72 | stripping cuts set characters from both ends only, leaves no set character at either end, and leaves nothing only when the whole text was made of them |
| Text.TrimmedTwice | lambda_function.py:72 | two successive cuts are one cut with the characters of both sets |
| Text.ContainsIff | lambda_function.py:81 | the substring test holds exactly when the text occurs at some position |
| Text.ContainsInside | lambda_function.py:82 | a text contains whatever is written inside it |
| Text.NotContainsLonger | lambda_function.py:85 | nothing longer than a text occurs in it |
| Text.ContainsAnyIff | lambda_function.py:82 | `any(w in s for w in words)` holds exactly when some candidate occurs in the text |
| Text.WordPrefix | lambda_function.py:84 | the first word is the longest whitespace-free prefix |
| Text.Words | lambda_function.py:84 | `split()` yields non-empty pieces without whitespace |
| Text.WordsCoverText | lambda_function.py:84 | the words put back together are the text without its whitespace, so splitting loses nothing else |
| Text.WordsOfBlank | lambda_function.py:84 | a label made only of whitespace has no words |
| Text.WordsCons | lambda_function.py:84 | `split()` takes maximal runs: after leading whitespace, a run of non-whitespace ending at whitespace or at the end of the text is the next word, and splitting continues after it |
| Text.SplitJoin | lambda_function.py:39 | splitting a joined text on the separator gives back the parts when no part contains it |
| Text.Decimal | lambda_function.py:38 | a number renders as a non-empty string of decimal digits with no leading zero |
| Text.ParseDecimalOfDecimal | lambda_function.py:38 | reading the rendered digits back gives the number |
| Handler.HandleHelpAndSupport | lambda_function.py:94-120 | the service answers 200, 400 or 500; success holds exactly on 200; no data comes with a failure |
| Handler.MissingFieldsRefused | lambda_function.py:96-101 | the status is 400 exactly when the description or the options are missing or empty, and then the response is the fixed refusal whatever the model would reply |
| Handler.ServiceRecommendsClassified | lambda_function.py:103-117 | the status is 200 exactly when the fields are complete and the model replied, and then the single recommended option is the category the resolver picks, which is one of the ticket's options |
| Handler.ServiceFailureCarriesError | lambda_function.py:119-120 | the status is 500 exactly when the data is not an object or the model call failed on complete fields, and the message is "Failed to classify ticket: " and the error text |
| Handler.LambdaHandler | lambda_function.py:123-158 | the entry point answers 200, 400 or 500, and success holds exactly on 200 |
| Handler.HandlerRefusals | lambda_function.py:128-158 | a body that is not JSON gives 400 "Invalid JSON in request body"; a missing type gives 400 "Missing request type"; another type than "HELP_AND_SUPPORT" gives 400 "Unsupported request type: " and the type; a request that is not an object gives 500 "Unexpected error: " and the error text |
| Handler.HandlerDispatches | lambda_function.py:151-153 | a help-and-support request is answered by its service, and a direct call and an HTTP body get the same answer |
| Handler.HandlerSuccess | lambda_function.py:123-158 | every successful answer comes from a help-and-support request with complete fields and recommends the category the resolver picks among its options |
| Scenarios.ExactReply | lambda_function.py:74-76 | the reply "Billing" picks the "Billing" category by exact match |
| Scenarios.KeywordReply | lambda_function.py:84-86 | the reply "I think Billing?" picks "Billing" through its keyword check |
| Scenarios.KeywordBeforeLaterDomain | lambda_function.py:79-86 | with "Billing" listed before "Internet & Phone", the reply "phone billing" picks "Billing" |
| Scenarios.DomainReply | lambda_function.py:81-83 | the reply "wifi issues" picks "Internet & Phone" through the domain check |
| Scenarios.AvInsideTravel | lambda_function.py:81-83 | the reply "travel plans" picks an "Internet & Phone" category listed before "Travel", because "av" occurs inside "travel" |
| Scenarios.FallbackToOther | lambda_function.py:31-36 | the reply "Help" matches nothing and picks "Other", the second option |

## Left out

- The language-model calls (the warm-up at start-up and the classification
  request) are foreign network calls: the reply text, or the error the call
  raised, is an input (`Handler.ModelReply`).
- The wording of the prompt and of the system message is free text sent to
  the model; only the numbered category list inside it is modelled.
- Reading the API key from the environment and failing at import time are
  process start-up and are not modelled.
- JSON decoding of the event body, JSON encoding of the response body and the
  constant CORS headers are library serialisation and fixed data: the body is
  modelled as already decoded (or failed to decode), the response as the
  record of status code, success flag, message and data.
- `Text.LowerStr`: lower-cases ASCII letters only, where Python's `lower()`
  follows the Unicode case mapping; labels and replies outside ASCII letters
  are compared as they are. Whitespace, by contrast, is Python's full
  `isspace()` set.
- The membership type is read from the request and passed on, but the
  classifier never uses it; it is kept as a field and nothing depends on it.
- Option records without a label or an id are excluded by typing a category
  as a record with both fields. In the code, a record without a label always
  fails with a key error (every label is read to build the numbered list),
  which ends in the 500 path; a record without an id fails only when it is the
  chosen category, when the response is built, and otherwise the request is
  answered with 200.
- Request fields of other JSON types than expected (a number as the request
  type, a non-string description) are excluded by typing; an absent field is
  modelled as the empty string or the empty list, which is how the code reads
  an absent field. A request or data value that is not an object at all is
  modelled (`Handler.Json.NotAnObject`), with the error text as a parameter.
- A reply whose content is missing (no text at all), which fails inside the
  clean-up, is folded into `Handler.ModelReply.CallFailed`, since it takes the
  same 500 path.
- The invocation context argument of the entry point is unused and not modelled.
