# NERD tag engine and IPVisualizator core, in Dafny

This project models the decision logic of two Python code bases and proves
properties of that model.

- **NERD tag module** (`NERDd/modules/tags.py`). Each tag is configured as a
  condition and an optional info text. A lexer and a recursive-descent parser
  compile each condition into an expression tree. The module also collects the
  record attributes the condition mentions, which form the trigger index. When
  an IP record changes, `update_tags` re-evaluates every tag whose trigger
  attributes were updated, or every tag on the `!refresh_tags` event. It then
  issues `set`/`remove` requests that add, rewrite or remove the tags stored in
  the record.
- **Two smaller NERD modules.**
  - The hostname classifier (`NERDd/modules/hostname.py`) tries the suffixes of
    a hostname against a table of known domains and collects the services
    whose regexes match.
  - The event counter (`NERDd/modules/event_counter.py`) sums events over 1, 7
    and 30 day windows, counts the distinct reporting nodes, and computes two
    moving averages over the last 7 days.
- **IPVisualizator back end.**
  - `redisdb.py` keeps a dataset of IPv4 address values in hashes keyed by /16
    network. Each /16 network also has a cached total.
  - The map view (`get_map_api`) validates the network and resolution and sums
    the values into pixels. It lays the pixels out along a Hilbert curve and
    rounds their values.
  - The CSV upload converter turns lines of `address,value` into a dictionary.

Each module follows one source component:

| module | file | models |
|---|---|---|
| `Wrappers` | wrappers.dfy | `Option` and `Result` |
| `Values` | values.dfy | Python values held in a record, Python equality and ordering on them, and the dotted-attribute lookup |
| `Lexer`, `TokenText` | lexer.dfy, token_text.dfy | `Lexer.read_input`/`read_lexem`, plus a renderer of tokens as the lexer's partner |
| `Ast` | ast.dfy | the expression nodes, their `eval`, and `evaluate_logical`/`evaluate_mathematical` |
| `Parser`, `Unparse`, `Precedence` | parser.dfy, unparse.dfy, precedence.dfy | the parser, a printer of trees as its partner, and the grammar's precedence |
| `Tags`, `TagRules`, `Idempotence` | tags.dfy, tag_rules.dfy, idempotence.dfy | loading the tags, the trigger index, `update_tags`, and what its requests do to a record |
| `Hostname` | hostname.dfy | `convert_domain_list_to_dict` and `hostname_classify` |
| `EventCounter` | event_counter.dfy | `count_events` |
| `Bits`, `Hilbert` | bits.dfy, hilbert.dfy | shifts as divisions, and `hilbert_i_to_xy` |
| `IpAddr`, `CsvImport` | ipaddr.dfy, csv_import.dfy | `IP_RE`, the dotted-quad fold, `is_ip` and `convert_ip_data_from_csv` |
| `Chunks`, `DatasetStore`, `Networks` | chunks.dfy, dataset_store.dfy, networks.dfy | `chunks`, the bookkeeping of the per-/16 totals, and `get_networks`/`get_dataset` |
| `MapApi` | map_api.dfy | the checks and the pixel loop of `get_map_api` |

Several things the source gets from outside become parameters of the model:

| what | how it is modelled | where |
|---|---|---|
| JSONPath | `jsonPathValid`/`find` fields of a `Foreign` record, treated as uninterpreted | tag module |
| Python `str()` of a value in an info template | `show` field of the same record | tag module |
| the current time | an `int` argument | `now` in `update_tags`, `today` in `count_events` |
| event dates | integer day numbers | event counter |
| the hostname regexes | a `search` function | hostname classifier |
| `float()` of a CSV field | a `parseFloat` function | CSV converter |

Python floats are Dafny `real`s. Addresses are natural numbers. A Redis hash is a
`map`. A Python dict whose iteration order matters is a sequence of pairs. A
record's stored tags are iterated in the order given by `storedOrder`, which lists
each stored tag exactly once (`Tags.StoredOrder`).

Where the system's written description and the code differ, the model follows the
code:
- `'a' not in null` is false. The code's `except` branch sets the result to
  `False` for both `in` and `not in`.
- `update_tags` and `count_events` return `None`. They hand their requests to the
  update manager instead. The model returns those requests.

## Model

| member | source | states |
|---|---|---|
| Values.PyEqReflexive | NERDd/modules/tags.py:578-581 | Python `==` on record values is reflexive |
| Values.PyEqSymmetric | NERDd/modules/tags.py:578-581 | Python `==` on record values is symmetric |
| Values.StrLessTrichotomy | NERDd/modules/tags.py:582-589 | Python's string order is irreflexive, total and asymmetric |
| Values.PyCompareDefinedness | NERDd/modules/tags.py:582-591 | an ordering comparison (outside list/list) is defined exactly for number/number (bools count as numbers), string/string and datetime/datetime operands; any other pair raises |
| Values.ToArithZero | NERDd/modules/tags.py:552-565 | the arithmetic coercion is 0 exactly for None and values equal to 0; any other non-number becomes 1 |
| Values.ToLogicalVersusTruthy | NERDd/modules/tags.py:521-527 | the `and`/`or` coercion differs from Python truthiness exactly on empty strings, lists and dicts |
| Values.IsSubstringSpec | NERDd/modules/tags.py:611-615 | string containment holds iff the text occurs at some position |
| Values.FirstDot | NERDd/modules/tags.py:468-469 | `split('.', 1)` cuts at the first dot: the head holds no dot |
| Values.LookupIsWalk | NERDd/modules/tags.py:462-477 | looking up a dotted name walks the nested dicts segment by segment; a missing key anywhere gives None |
| Lexer.KeyWord | NERDd/modules/tags.py:307-321 | a word yields an identifier iff it is not a keyword, and an identifier carries the word |
| Lexer.SkipSpaces | NERDd/modules/tags.py:299-300 | only the space character is skipped: what remains is empty or starts with a non-space |
| Lexer.Span | NERDd/modules/tags.py:414-419 | the lexeme loops take exactly the longest run of matching characters |
| Lexer.IndexOf | NERDd/modules/tags.py:393-395 | the closing quote found is the first occurrence; None iff there is none |
| Lexer.ReadLexem | NERDd/modules/tags.py:323-437 | each non-EOI lexeme consumes input; EOI is returned only when nothing but spaces is left |
| Lexer.Tokenize | NERDd/modules/tags.py:323-437 | the token list never holds EOI |
| Lexer.TwoCharOperators | NERDd/modules/tags.py:362-386 | `==`, `!=`, `<=`, `>=` are single tokens whatever follows |
| Lexer.TrailingEqualsIsEq | NERDd/modules/tags.py:281-283 | a `=` at end of input reads as `==` because the current character is not cleared at EOI; a trailing `!` is an error |
| Lexer.LoneEqualsOrBangFails | NERDd/modules/tags.py:362-373 | `=` or `!` followed by anything but `=` is a syntax error |
| Lexer.UnterminatedQuotesFail | NERDd/modules/tags.py:388-412 | a string or JSONPath without its closing delimiter is an error |
| Lexer.OutsideGrammarFails | NERDd/modules/tags.py:437 | a tab or any other character outside the grammar is a syntax error |
| Lexer.SecondDotFails | NERDd/modules/tags.py:422-431 | a number with a second `.` is an error |
| Lexer.ReadOperator | NERDd/modules/tags.py:338-386 | an operator lexeme, when accepted, consumes input and is not EOI |
| Lexer.ReadQuoted | NERDd/modules/tags.py:388-412 | a quoted lexeme, when accepted, consumes input and is not EOI |
| Lexer.ReadIdent | NERDd/modules/tags.py:414-420 | a word is always accepted, consumes input and is not EOI |
| Lexer.ReadNumber | NERDd/modules/tags.py:422-435 | a number lexeme, when accepted, consumes input and is not EOI |
| TokenText.Spell | NERDd/modules/tags.py:338-435 | the spelling of a token is non-empty and starts with a non-space, as the lexer needs |
| TokenText.SpellRead | NERDd/modules/tags.py:323-437 | every well-formed token is read back from its spelling when a space or the end follows |
| TokenText.KeywordRead | NERDd/modules/tags.py:414-420 | `or`, `and`, `not`, `in` are read as their keywords |
| TokenText.NumberRead | NERDd/modules/tags.py:422-435 | the decimal digits of k are read as the number k |
| TokenText.QuotedRead | NERDd/modules/tags.py:388-412 | a delimited body without the delimiter is read back as that body |
| TokenText.TokenizeRender | NERDd/modules/tags.py:323-437 | tokenizing the rendering of well-formed tokens gives exactly those tokens and no error |
| TokenText.TokenizeSpace | NERDd/modules/tags.py:332-333 | a leading space changes nothing |
| TokenText.MantissaDigits | NERDd/modules/tags.py:434 | `int()` of the digits of k is k |
| Ast.CloseBrace | NERDd/modules/tags.py:664 | the lazy `.*?` stops at the first `}` and does not cross a line break |
| Ast.FindPlaceholders | NERDd/modules/tags.py:664 | no placeholder name found holds `}` or a line break |
| Ast.Dedup | NERDd/modules/tags.py:664-667 | the placeholder names, once each, with the same members as the matches |
| Ast.ResultKinds | NERDd/modules/tags.py:529-655 | logical, comparison, membership and `not` nodes yield booleans; arithmetic and unary minus yield numbers; evaluation never fails |
| Ast.ShortCircuit | NERDd/modules/tags.py:536-549 | `and` ignores its right side once the left is false, `or` once the left is true |
| Ast.LogicalConnectives | NERDd/modules/tags.py:521-549 | `and`/`or` are conjunction/disjunction of the coerced operands |
| Ast.NotInNegatesIn | NERDd/modules/tags.py:602-618 | `not in` negates `in` when containment is defined; when it raises, both are false |
| Ast.ArithmeticCoercions | NERDd/modules/tags.py:552-577 | a missing attribute counts as 0 and a JSONPath's list as 1 in arithmetic and unary minus, and division by zero yields 0 |
| Ast.NotVersusAnd | NERDd/modules/tags.py:649-655 | `not` uses native truthiness (`not ''` is true) while `and` treats `''` as true |
| Ast.IncomparableIsFalse | NERDd/modules/tags.py:582-591 | comparing None with a number is false in either direction instead of an error |
| Ast.EvaluateLogicalVersusTruthy | NERDd/modules/tags.py:959-973 | a value satisfies a condition iff it is truthy, or an empty string or dict |
| Ast.EvaluateMathematicalIsToArith | NERDd/modules/tags.py:975-992 | the confidence is the arithmetic coercion of the value |
| Ast.SatisfiedConfidenceNonZero | NERDd/modules/tags.py:970-992 | a satisfied condition never has confidence 0, and a non-number has confidence 1 |
| Ast.ReplaceAllAbsent | NERDd/modules/tags.py:678 | `str.replace` without an occurrence leaves the text |
| Ast.ReplaceAllSame | NERDd/modules/tags.py:678 | replacing a pattern by itself leaves the text |
| Ast.ReplaceAllPrefix | NERDd/modules/tags.py:678 | every occurrence is replaced, from the left |
| Ast.NoBraceNoPlaceholders | NERDd/modules/tags.py:664 | a text without `{` has no placeholders |
| Ast.SubstituteMissing | NERDd/modules/tags.py:674-679 | placeholders of missing attributes stay verbatim |
| Ast.FormatUnresolved | NERDd/modules/tags.py:669-679 | an info whose placeholders name only missing attributes is its own text |
| Ast.FormatExample | NERDd/modules/tags.py:669-679 | the template "{cc}" with cc = "CZ" gives "CZ" |
| Ast.JoinPlaceholders | NERDd/modules/tags.py:664 | in text joined by `{x}` from pieces without '{', the placeholders found are copies of x, at least one iff there is a separator |
| Ast.ReplaceJoin | NERDd/modules/tags.py:678 | `str.replace` of a '{'-led pattern in such a join replaces every occurrence and keeps the pieces |
| Ast.FormatPresent | NERDd/modules/tags.py:662-679 | a placeholder `{x}` of a present attribute is replaced by `str()` of its value at every occurrence, and the text around it stays |
| Parser.CompareOp | NERDd/modules/tags.py:884-913 | the comparator read: a non-operator leaves the tokens; relational ones are the six comparisons; `not` must be followed by `in` |
| Parser.Operand | NERDd/modules/tags.py:812-834 | a parsed operand consumes at least one token |
| Parser.MathTimes | NERDd/modules/tags.py:799-801 | a parsed product consumes at least one token |
| Parser.MathTimesRest | NERDd/modules/tags.py:802-810 | the product tail never grows the input |
| Parser.MathExpr | NERDd/modules/tags.py:786-788 | a parsed sum consumes at least one token |
| Parser.MathExprRest | NERDd/modules/tags.py:789-797 | the sum tail never grows the input |
| Parser.CondPart | NERDd/modules/tags.py:856-882 | a parsed condition part consumes at least one token |
| Parser.CondAnd | NERDd/modules/tags.py:846-848 | a parsed conjunction consumes at least one token |
| Parser.CondAndRest | NERDd/modules/tags.py:849-854 | the conjunction tail never grows the input |
| Parser.CondOr | NERDd/modules/tags.py:836-838 | a parsed condition consumes at least one token |
| Parser.CondOrRest | NERDd/modules/tags.py:839-844 | the disjunction tail never grows the input |
| Unparse.ParseTokens | NERDd/modules/tags.py:915-922 | parsing the tokens printed for any parsable tree gives that tree back |
| Unparse.CondOrTokens | NERDd/modules/tags.py:836-854 | a printed tree followed by a closing token is read as exactly that tree, leaving the closing token |
| Unparse.AtomTokens | NERDd/modules/tags.py:812-834 | attributes, numbers, strings and valid JSONPaths are read back as themselves |
| Unparse.UnaryTokens | NERDd/modules/tags.py:812-860 | unary minus and `not` of a printed operand are read back |
| Unparse.ParenOperand | NERDd/modules/tags.py:812-834 | a parenthesised condition is an operand |
| Unparse.BopTokens | NERDd/modules/tags.py:786-882 | a printed binary node is read back as that node |
| Unparse.TimesStep | NERDd/modules/tags.py:799-810 | `(l) * (r)` and `(l) / (r)` are read as one product |
| Unparse.PlusStep | NERDd/modules/tags.py:786-797 | `(l) + (r)` and `(l) - (r)` are read as one sum |
| Unparse.LogicalStep | NERDd/modules/tags.py:836-854 | `(l) and (r)` and `(l) or (r)` are read as one node |
| Unparse.RelationStep | NERDd/modules/tags.py:856-882 | `(l) op (r)` for the six comparisons is read as one comparison |
| Unparse.InCompare | NERDd/modules/tags.py:903-911 | `in` and `not in` are read as membership comparators |
| Unparse.InTokens | NERDd/modules/tags.py:868-877 | `(x) in v` and `(x) not in v` are read back, with an attribute or JSONPath on the right |
| Unparse.InPart | NERDd/modules/tags.py:868-877 | a membership part is read from its item, comparator and right side |
| Unparse.FromOperand | NERDd/modules/tags.py:836-866 | an operand before a closing token is a whole condition |
| Unparse.FromMathTimes | NERDd/modules/tags.py:836-866 | a product before a closing token is a whole condition |
| Unparse.FromMathExpr | NERDd/modules/tags.py:836-866 | a sum before a closing token is a whole condition |
| Unparse.FromCondPart | NERDd/modules/tags.py:836-854 | a condition part before a closing token is a whole condition |
| Unparse.PartFromOperand | NERDd/modules/tags.py:856-866 | a parenthesised operand before `and`, `or` or a closing token is a condition part |
| Precedence.TimesBeforePlus | NERDd/modules/tags.py:786-810 | `1 + 2 * 3` parses as `1 + (2 * 3)` |
| Precedence.ProductTokens | NERDd/modules/tags.py:799-810 | `2 * 3` parses as one product |
| Precedence.TimesBeforePlusValue | NERDd/modules/tags.py:567-572 | `1 + 2 * 3` evaluates to 7 |
| Precedence.MinusGroupsLeft | NERDd/modules/tags.py:789-797 | `a - b - c` parses as `(a - b) - c` |
| Precedence.DivGroupsLeft | NERDd/modules/tags.py:799-810 | `a / b / c` parses as `(a / b) / c` |
| Precedence.UnaryBeforeTimes | NERDd/modules/tags.py:799-834 | `-a * b` parses as `(-a) * b`: the unary minus applies to the operand only |
| Precedence.AndBeforeOr | NERDd/modules/tags.py:836-854 | `a or b and c` parses as `a or (b and c)` |
| Precedence.AndNestsRight | NERDd/modules/tags.py:849-854 | `a and b and c` parses as `a and (b and c)` |
| Precedence.NotCoversComparison | NERDd/modules/tags.py:856-860 | `not a == b` parses as `not (a == b)` |
| Precedence.MembershipErrors | NERDd/modules/tags.py:868-875 | a string right of `in`, or `not` without `in`, is a parse error |
| Precedence.TrailingTokensRejected | NERDd/modules/tags.py:915-922 | tokens left after a complete condition are an error |
| Precedence.SingleIdentPart | NERDd/modules/tags.py:856-866 | a lone attribute is a condition part returned unwrapped |
| Tags.FirstRun | NERDd/modules/tags.py:749-751 | the trigger of a JSONPath is its first run of `[A-Za-z0-9_-]`; None iff there is no such character |
| Tags.ParseCondition | NERDd/modules/tags.py:102-119 | loading aborts iff the very first lexeme is malformed; a parsed condition is the parse of all tokens |
| Tags.LoadOne | NERDd/modules/tags.py:41-61 | a loaded tag keeps its id, had a condition, and has an info iff one was configured |
| Tags.Load | NERDd/modules/tags.py:41-64 | loading aborts iff some tag aborts; otherwise every loaded tag comes from a configured entry and every entry that loads is present |
| Tags.Decide | NERDd/modules/tags.py:206-229 | a tag's requests name only that tag and its declared fields; a removal comes alone and only for a stored tag |
| Idempotence.UpdateTagsSpec | NERDd/modules/tags.py:142-232 | no requests iff the entity is not an IP; the requests set only registered change paths of configured, eligible tags, remove only stored tags and, on `!refresh_tags`, every stored tag no longer configured; after applying them a second run issues none |
| TagRules.ParseInfoNeverCrashes | NERDd/modules/tags.py:121-140 | an info never aborts loading, and an info without `"` is exactly its text |
| TagRules.FirstLexemeDecidesCrash | NERDd/modules/tags.py:733-736 | a malformed first lexeme aborts loading; a later malformed lexeme only skips the tag |
| TagRules.MissingConditionSkipped | NERDd/modules/tags.py:43-45 | a tag without a condition is skipped |
| TagRules.LoadKeepsIdsUnique | NERDd/modules/tags.py:41-61 | loaded tags have distinct ids, all configured |
| TagRules.AddTriggerSpec | NERDd/modules/tags.py:72-76 | adding a tag's variables indexes the tag under each of them and keeps the other entries |
| TagRules.TriggersSpec | NERDd/modules/tags.py:66-76 | an attribute indexes exactly the tags whose condition mentions it |
| TagRules.EligibleSpec | NERDd/modules/tags.py:165-179 | without `!refresh_tags` a tag is re-evaluated iff an updated non-`!` attribute is one of its triggers |
| TagRules.TagEditsOrigin | NERDd/modules/tags.py:206-229 | every per-tag edit belongs to an eligible tag and one of its declared fields; a removal names a stored tag |
| TagRules.ObsoleteSpec | NERDd/modules/tags.py:199-204 | for any list of tag ids, the removals name exactly the listed ids that are not configured, and only on `!refresh_tags` |
| TagRules.ObsoleteOnce | NERDd/modules/tags.py:201-203 | a list without repeats gives each removal once |
| TagRules.ObsoleteExact | NERDd/modules/tags.py:199-204 | iterating the record's stored tags, `!refresh_tags` removes exactly the stored tags that are not configured, each once; without it none |
| TagRules.OnlyTriggeredTagsChange | NERDd/modules/tags.py:172-179 | without `!refresh_tags`, nothing is written for a tag none of whose triggers was updated |
| TagRules.EditsOrigin | NERDd/modules/tags.py:197-229 | every edit is an obsolete removal or an edit of a configured tag's declared field |
| TagRules.DeclaredChanges | NERDd/modules/tags.py:81-89 | every path set is among the paths registered as changes |
| TagRules.DeclaredPath | NERDd/modules/tags.py:81-89 | a declared field's path is registered |
| TagRules.ChangesSpec | NERDd/modules/tags.py:82-88 | confidence, time_added and time_modified of every tag, and info of tags with one, are registered |
| TagRules.AddNewTag | NERDd/modules/tags.py:217-225 | a new satisfied tag gets confidence (non-zero), then its info iff it evaluates to non-None, then time_added and time_modified at the same instant |
| TagRules.RemoveUnsatisfied | NERDd/modules/tags.py:226-229 | a stored tag whose condition fails is removed and nothing else |
| TagRules.RewriteIffChanged | NERDd/modules/tags.py:208-216 | a stored satisfied tag is rewritten iff its confidence or info changed; a rewrite ends with time_modified and never sets time_added |
| Idempotence.ApplyEntry | NERDd/modules/tags.py:197-231 | a tag's entry after the requests depends only on that tag's own requests |
| Idempotence.ApplyFrame | NERDd/modules/tags.py:197-231 | the requests change nothing outside the stored tags |
| Idempotence.FoldRemovals | NERDd/modules/tags.py:203 | removals leave no entry |
| Idempotence.RunEntryConfigured | NERDd/modules/tags.py:206-229 | after a run, a configured tag's entry is what its own decision makes of it |
| Idempotence.RunEntryUnconfigured | NERDd/modules/tags.py:199-204 | after a run, an unconfigured tag's entry is gone on `!refresh_tags` and untouched otherwise |
| Idempotence.DecideResult | NERDd/modules/tags.py:206-229 | after its requests, a tag's entry is absent iff unsatisfied, else holds the evaluated confidence and info |
| Idempotence.DecideTwice | NERDd/modules/tags.py:208-216 | deciding again on the updated entry issues nothing |
| Idempotence.EvalFrame | NERDd/modules/tags.py:462-679 | an expression that reads no stored tag has the same value on records differing only in stored tags |
| Idempotence.RunWellFormed | NERDd/modules/tags.py:197-231 | applying a run's requests keeps the record well formed |
| Idempotence.Idempotent | NERDd/modules/tags.py:142-232 | applying the requests and running again with the same updates issues no request |
| Idempotence.StaleInfoRefreshes | NERDd/modules/tags.py:209-213 | a satisfied tag without info whose entry still holds an info is rewritten on every run |
| Hostname.DomainTable | NERDd/modules/hostname.py:50-53 | the table's keys are exactly the listed domains |
| Hostname.DomainTableLastWins | NERDd/modules/hostname.py:50-53 | a domain maps to the service of its last pair |
| Hostname.CountDots | NERDd/modules/hostname.py:83 | the dot count is at most the length |
| Hostname.AfterFirstDot | NERDd/modules/hostname.py:86 | the text after the first dot is shorter and has one dot fewer |
| Hostname.AfterFirstDotSpec | NERDd/modules/hostname.py:86 | the text is a dot-free head, a dot, then the rest |
| Hostname.AfterDotsCount | NERDd/modules/hostname.py:85-86 | candidate i has i dots fewer than the hostname |
| Hostname.AfterDotsSpec | NERDd/modules/hostname.py:85-86 | `split(".", i)[-1]` is the suffix after the i-th dot: the whole name for i = 0 |
| Hostname.CandidatesShrink | NERDd/modules/hostname.py:85-90 | later candidates are strictly shorter, so the first match is the longest |
| Hostname.AfterDotsNext | NERDd/modules/hostname.py:85-86 | each candidate is the previous one after its first dot |
| Hostname.CandidateHasDot | NERDd/modules/hostname.py:83-86 | every candidate checked holds a dot, so the bare last label is never checked |
| Hostname.KnownServiceSpec | NERDd/modules/hostname.py:83-90 | None iff no candidate is known; otherwise the service of the first known candidate |
| Hostname.KnownFromSpec | NERDd/modules/hostname.py:85-90 | the search from candidate i finds the first known candidate from i |
| Hostname.RegexServices | NERDd/modules/hostname.py:92-97 | the services are distinct, and exactly those of the matching rules |
| Hostname.RegexServicesOrder | NERDd/modules/hostname.py:92-97 | services are ordered by their first matching rule |
| Hostname.Classify | NERDd/modules/hostname.py:71-104 | None iff not an IP or no hostname; otherwise one or two requests |
| Hostname.ClassifyRequests | NERDd/modules/hostname.py:81-104 | at most one known-domain set, first, iff some candidate is known; then exactly one set (iff some regex matches) or remove of the regex path |
| EventCounter.WindowNodesSpec | NERDd/modules/event_counter.py:94-102 | a node is in a window's set iff some event at most w days old reports it |
| EventCounter.Slot | NERDd/modules/event_counter.py:104-105 | `alerts_per_day[d]` for -7 <= d < 7 is slot d, or d + 7 from the end |
| EventCounter.Weight | NERDd/modules/event_counter.py:12-13 | every weight is positive and at most alpha = 0.25 |
| EventCounter.Decay | NERDd/modules/event_counter.py:13 | the powers of 1 - alpha are positive and at most 1 |
| EventCounter.Requests | NERDd/modules/event_counter.py:107-116 | eight set requests on the emitted paths, in order |
| EventCounter.CountEvents | NERDd/modules/event_counter.py:52-117 | skipped iff not an IP or no events; raises iff an event is more than 7 days ahead; otherwise the eight requests |
| EventCounter.AddToWindow | NERDd/modules/event_counter.py:94-102 | one event added to a window's total and node set |
| EventCounter.AddToSlot | NERDd/modules/event_counter.py:104-105 | one event added to its day slot |
| EventCounter.WindowStep | NERDd/modules/event_counter.py:94-102 | the window after one more event |
| EventCounter.SlotsStep | NERDd/modules/event_counter.py:104-105 | the slots after one more event |
| EventCounter.WindowTotalAppend | NERDd/modules/event_counter.py:88-102 | a window total over appended event lists adds up |
| EventCounter.OldEventIgnored | NERDd/modules/event_counter.py:100-102 | an event more than w days old leaves the total unchanged |
| EventCounter.OldEventNoNode | NERDd/modules/event_counter.py:100-102 | an event more than w days old leaves the node set unchanged |
| EventCounter.WindowTotalMonotone | NERDd/modules/event_counter.py:94-102 | with non-negative counts, total1 <= total7 <= total30 |
| EventCounter.WindowNodesNested | NERDd/modules/event_counter.py:96-113 | the node sets are nested, so nodes_1d <= nodes_7d <= nodes_30d |
| EventCounter.RequestsOrdered | NERDd/modules/event_counter.py:107-113 | the emitted totals and node counts are ordered by window |
| EventCounter.FutureEventAliases | NERDd/modules/event_counter.py:92-105 | an event d = 1..7 days ahead counts in every window and lands in slot 7 - d |
| EventCounter.WeightSumClosed | NERDd/modules/event_counter.py:12-13 | the first k weights sum to 1 - 0.75^k |
| EventCounter.BinEwmaBounds | NERDd/modules/event_counter.py:115 | 0 <= bin_ewma <= the weight sum, with equality iff every day had a non-zero count |
| EventCounter.BinEwmaGap | NERDd/modules/event_counter.py:115 | one more day keeps bin_ewma within the weight sum, reaching it iff it was reached before and that day's count is non-zero |
| EventCounter.EwmaBounds | NERDd/modules/event_counter.py:114 | with counts from 0 to top, 0 <= ewma <= top times the weight sum |
| EventCounter.EmittedOutsideRegistered | NERDd/modules/event_counter.py:46-48 | the emitted `events_meta.ewma`/`events_meta.bin_ewma` are not among the registered changes |
| Bits.ShrIsDiv | IPVisualizator-backend/redisdb.py:124 | `x >> k` is x divided by 2^k |
| Bits.Pow4IsPow2 | IPVisualizator-backend/IPVisualizator.py:268 | 4^k = 2^(2k) |
| Hilbert.Row | IPVisualizator-backend/redisdb.py:94 | the row `4 * state` or-ed with a digit is one of 16 rows, from which state and digit come back |
| Hilbert.Walk | IPVisualizator-backend/redisdb.py:93-97 | after n digits, x and y are below 2^n |
| Hilbert.Digits | IPVisualizator-backend/redisdb.py:93-94 | the n base-4 digits read by the loop |
| Hilbert.FromDigits | IPVisualizator-backend/redisdb.py:93-94 | n digits spell a number below 4^n |
| Hilbert.DigitAt | IPVisualizator-backend/redisdb.py:93-94 | digit i is `(ix >> 2(n-1-i)) & 3` |
| Hilbert.DigitsRoundTrip | IPVisualizator-backend/redisdb.py:93-94 | the digits of an index below 4^n spell it back |
| Hilbert.DigitsInjective | IPVisualizator-backend/redisdb.py:93-94 | distinct indices below 4^n have distinct digits |
| Hilbert.CellsDistinct | IPVisualizator-backend/redisdb.py:95-96 | in one state the four digits emit four different bit pairs |
| Hilbert.WalkInjective | IPVisualizator-backend/redisdb.py:93-97 | equal-length runs ending on the same pixel read the same digits |
| Hilbert.CurveInjective | IPVisualizator-backend/redisdb.py:88-99 | distinct indices below 4^order map to distinct pixels |
| Hilbert.HilbertIToXy | IPVisualizator-backend/redisdb.py:88-99 | the loop computes the curve's coordinates, both below 2^order |
| IpAddr.Split | IPVisualizator-backend/redisdb.py:268 | `split('.')` yields at least one piece |
| IpAddr.SplitJoin | IPVisualizator-backend/redisdb.py:268 | the pieces joined back give the text, and none holds the separator |
| IpAddr.SplitCons | IPVisualizator-backend/redisdb.py:268 | the piece before the first separator comes first |
| IpAddr.SplitChars | IPVisualizator-backend/redisdb.py:268 | every character of a piece is a non-separator character of the text |
| IpAddr.OctetPatternValue | IPVisualizator-backend/IPVisualizator.py:31 | an octet of `IP_RE` is 1-3 digits with value at most 255, leading zeros allowed |
| IpAddr.Octets | IPVisualizator-backend/redisdb.py:268 | an accepted address has four octets of at most 255 |
| IpAddr.IntToOctets | IPVisualizator-backend/redisdb.py:268 | the four octets of a number, each at most 255 |
| IpAddr.FoldFour | IPVisualizator-backend/redisdb.py:268 | the fold is `((a*256+b)*256+c)*256+d` |
| IpAddr.FoldOctets | IPVisualizator-backend/redisdb.py:268-269 | four octets fold below 2^32, the bucket is the first two octets, and the octets come back |
| IpAddr.OctetsFold | IPVisualizator-backend/redisdb.py:268 | every address below 2^32 is the fold of its octets |
| IpAddr.IpToIntBound | IPVisualizator-backend/redisdb.py:268-269 | an accepted address folds below 2^32 with a bucket below 65536 |
| IpAddr.SplitQuad | IPVisualizator-backend/redisdb.py:268 | four dot-free pieces joined by dots split back into them |
| IpAddr.LeadingZerosCollide | IPVisualizator-backend/IPVisualizator.py:31 | "1.2.3.4" and "01.2.3.4" are both accepted and fold to the same address |
| IpAddr.QuadOctets | IPVisualizator-backend/IPVisualizator.py:31 | four octet patterns joined by dots are accepted, with their values as octets |
| IpAddr.QuadAddress | IPVisualizator-backend/redisdb.py:268-269 | the address and /16 network of four octets joined by dots |
| IpAddr.PatternAcceptsLineBreak | IPVisualizator-backend/IPVisualizator.py:31 | `$` lets a final line break through |
| IpAddr.PatternRejectsLargeOctet | IPVisualizator-backend/IPVisualizator.py:31 | an octet above 255 is rejected |
| CsvImport.IsIp | IPVisualizator-backend/IPVisualizator.py:34-39 | every non-string passes; a string passes iff it is a dotted quad, optionally with one final line break |
| CsvImport.IsIpExamples | IPVisualizator-backend/IPVisualizator.py:34-39 | a non-string and "10.0.0.1\n" pass, "256.0.0.1" fails |
| CsvImport.BreakLine | IPVisualizator-backend/IPVisualizator.py:45 | the first line holds no break and the rest is shorter |
| CsvImport.SplitLines | IPVisualizator-backend/IPVisualizator.py:45 | no line holds a line break |
| CsvImport.SplitLinesCons | IPVisualizator-backend/IPVisualizator.py:45 | a line ended by `\n` comes first; a text without breaks is one line |
| CsvImport.TrimStart | IPVisualizator-backend/IPVisualizator.py:46 | exactly the leading white space is dropped |
| CsvImport.TrimEnd | IPVisualizator-backend/IPVisualizator.py:46 | exactly the trailing white space is dropped |
| CsvImport.Strip | IPVisualizator-backend/IPVisualizator.py:46 | the stripped row is a slice with white space only around it, and starts and ends with non-space |
| CsvImport.Outcomes | IPVisualizator-backend/IPVisualizator.py:45-65 | each line's outcome: skipped, accepted row, or the error it raises |
| CsvImport.Find | IPVisualizator-backend/IPVisualizator.py:67 | the position of a key is its first occurrence, or the length when absent |
| CsvImport.Store | IPVisualizator-backend/IPVisualizator.py:67 | `ips[ip] = value` keeps keys distinct, adds the key, and grows the dict iff the key is new |
| CsvImport.Collect | IPVisualizator-backend/IPVisualizator.py:42-69 | the result's keys are distinct |
| CsvImport.CollectErrors | IPVisualizator-backend/IPVisualizator.py:52-65 | conversion fails iff some line fails, with the first failing line's error |
| CsvImport.CollectKeys | IPVisualizator-backend/IPVisualizator.py:57-67 | the keys are exactly the addresses of accepted rows |
| CsvImport.CollectLastWins | IPVisualizator-backend/IPVisualizator.py:67 | a key holds the value of the last row with that address |
| CsvImport.RowAddress | IPVisualizator-backend/IPVisualizator.py:57-60 | an accepted row's address is a dotted quad |
| CsvImport.UploadFeedsCreate | IPVisualizator-backend/IPVisualizator.py:42-69 | a converted upload is valid input for `create_dataset` |
| Chunks.Chunks | IPVisualizator-backend/redisdb.py:250-253 | the pieces concatenate to the input, number ceil(n/size), and each holds 1 to size entries |
| Chunks.PieceCount | IPVisualizator-backend/redisdb.py:252 | `range(0, n, size)` has ceil(n/size) steps |
| Chunks.InConcat | IPVisualizator-backend/redisdb.py:250-253 | every entry of a piece is an entry of the input |
| Chunks.PiecesDisjoint | IPVisualizator-backend/redisdb.py:250-253 | pieces of a dict's entries share no entry |
| DatasetStore.MapSumRemove | IPVisualizator-backend/redisdb.py:446-447 | a hash's total is any one value plus the total of the rest |
| DatasetStore.MapSumUpdate | IPVisualizator-backend/redisdb.py:404-405 | writing one key changes the total by the difference |
| DatasetStore.BucketOf | IPVisualizator-backend/redisdb.py:269-271 | the hash of a /16 bucket holds exactly the stored addresses with that bucket |
| DatasetStore.BucketSumUpdate | IPVisualizator-backend/redisdb.py:404-410 | writing an address changes only its own bucket's total, by the difference |
| DatasetStore.BucketSumRemove | IPVisualizator-backend/redisdb.py:443-450 | deleting an address takes its value off its own bucket's total only |
| DatasetStore.SetIpRecord | IPVisualizator-backend/redisdb.py:395-415 | the size grows by one iff the address is new; the set succeeds iff the bucket has a total, and then stores the value |
| DatasetStore.DeleteIpRecord | IPVisualizator-backend/redisdb.py:436-451 | an absent address changes nothing; otherwise the value leaves the total and the size drops by one; a missing total raises before any write |
| DatasetStore.UpdateIpRecord | IPVisualizator-backend/redisdb.py:453-470 | incr/decr start from the stored value, or 0 for a new address |
| DatasetStore.SetKeepsConsistent | IPVisualizator-backend/redisdb.py:395-410 | a set on a consistent store with a cached bucket keeps totals and size consistent |
| DatasetStore.DeleteKeepsConsistent | IPVisualizator-backend/redisdb.py:443-450 | a delete on a consistent store succeeds and keeps it consistent |
| DatasetStore.SetCrashLeavesSizeWrong | IPVisualizator-backend/redisdb.py:399-404 | a set raises exactly when the bucket has no total, after counting the address in the size |
| DatasetStore.DeleteUndoesSet | IPVisualizator-backend/redisdb.py:436-451 | deleting a just-added address restores the store exactly |
| DatasetStore.SetIdempotent | IPVisualizator-backend/redisdb.py:395-410 | setting the same value twice is setting it once |
| DatasetStore.ZeroCache | IPVisualizator-backend/redisdb.py:261-265 | a zero total for exactly the first count buckets |
| DatasetStore.LastWins | IPVisualizator-backend/redisdb.py:267-271 | every uploaded address is stored |
| DatasetStore.LastWinsDomain | IPVisualizator-backend/redisdb.py:267-271 | only uploaded addresses are stored |
| DatasetStore.LastWinsValue | IPVisualizator-backend/redisdb.py:267-271 | an address holds the value of its last row |
| DatasetStore.FillTablesFails | IPVisualizator-backend/redisdb.py:261-271 | the loop fails iff some address lies outside the allocated buckets 0..65534 |
| DatasetStore.FillTablesContents | IPVisualizator-backend/redisdb.py:265-271 | each allocated bucket's total is the sum of the rows into it, and each address keeps its last value |
| DatasetStore.CreateDatasetSpec | IPVisualizator-backend/redisdb.py:255-290 | create fails iff an address is in bucket 65535; otherwise totals, records and size are as uploaded |
| DatasetStore.DistinctRowsTotal | IPVisualizator-backend/redisdb.py:267-271 | with distinct addresses the running totals are the bucket sums of the records |
| DatasetStore.CreateConsistentWhenDistinct | IPVisualizator-backend/redisdb.py:255-290 | with distinct addresses a successful create leaves a consistent store |
| DatasetStore.RecordsAllocated | IPVisualizator-backend/redisdb.py:263-271 | every stored address of a successful upload is in an allocated bucket |
| DatasetStore.DistinctCount | IPVisualizator-backend/redisdb.py:278 | distinct addresses give as many records as rows, matching `len(ips)` |
| DatasetStore.TwoSpellingsUpload | IPVisualizator-backend/redisdb.py:267-278 | two spellings of one address: size 2, one record, and the total of both values |
| DatasetStore.TwoSpellingsInconsistent | IPVisualizator-backend/redisdb.py:267-278 | such a store is inconsistent when the first value is non-zero |
| DatasetStore.LeadingZeroUploadInconsistent | IPVisualizator-backend/redisdb.py:267-278 | uploading "1.2.3.4"=1 and "01.2.3.4"=2 leaves size 2, one record of 2, and total 3 |
| DatasetStore.TopBucketUploadFails | IPVisualizator-backend/redisdb.py:263-270 | uploading 255.255.0.1 fails: bucket 65535 was never allocated |
| DatasetStore.TopBucketAddress | IPVisualizator-backend/redisdb.py:268-269 | 255.255.0.1 is in bucket 65535 |
| DatasetStore.TopBucketSetCrashes | IPVisualizator-backend/redisdb.py:402-404 | on an uploaded dataset, setting an address of 255.255.0.0/16 raises after growing the size |
| DatasetStore.AddressBucket | IPVisualizator-backend/redisdb.py:268-269 | every accepted address has a bucket below 65536 |
| DatasetStore.EmptyStore | IPVisualizator-backend/redisdb.py:261-265 | an empty dataset with a zero total for each of the 65536 buckets |
| DatasetStore.CreateDatasetFixed | IPVisualizator-backend/redisdb.py:261-278 | all 65536 buckets get totals and each address its last value |
| DatasetStore.CreateDatasetFixedConsistent | IPVisualizator-backend/redisdb.py:255-290 | the corrected upload always leaves a consistent store |
| DatasetStore.FixedStoreAcceptsEveryAddress | IPVisualizator-backend/redisdb.py:395-410 | after the corrected upload, setting any address below 2^32 succeeds |
| Networks.PixelOf | IPVisualizator-backend/redisdb.py:122-130 | an entry counts iff its top prefixlen bits are the network's; its pixel is its bits between 32 - prefixlen and 32 - resolution, below 2^(resolution - prefixlen) |
| Networks.PixelIndex | IPVisualizator-backend/redisdb.py:124-129 | the shift arithmetic of the source computes those bits |
| Networks.PixelRange | IPVisualizator-backend/redisdb.py:124-130 | pixel j holds exactly the addresses from network + j * 2^(32 - resolution) for one block |
| Networks.PixelBlock | IPVisualizator-backend/redisdb.py:124-130 | a pixel index is j iff the address lies in block j |
| Networks.CachePixelAgrees | IPVisualizator-backend/redisdb.py:118-123 | at resolution 16 or coarser, a /16 total shifted left by 16 lands in the pixel of every address of its bucket |
| Networks.SameHighBits | IPVisualizator-backend/redisdb.py:123 | clearing the low 16 bits keeps every higher bit |
| Networks.Interval | IPVisualizator-backend/redisdb.py:368-370 | the /16 subnets of a larger network are consecutive buckets |
| Networks.LoadedBucketsCover | IPVisualizator-backend/redisdb.py:362-371 | the buckets `get_dataset` reads hold every address the network covers |
| Networks.GetNetworks | IPVisualizator-backend/redisdb.py:114-132 | 2^(resolution - prefixlen) pixels, each the sum of the entries whose pixel it is |
| Networks.Pixels | IPVisualizator-backend/redisdb.py:114-132 | the map has 2^(resolution - prefixlen) pixels |
| Networks.PixelsAddUp | IPVisualizator-backend/redisdb.py:114-132 | the pixels add up to the total of the entries inside the network |
| Networks.LoadedBucketsSuffice | IPVisualizator-backend/redisdb.py:354-376 | reading only the chosen buckets gives every pixel the total that reading all records would |
| Networks.CoveringBucketsSuffice | IPVisualizator-backend/redisdb.py:362-371 | dropping buckets that hold no address of the network changes no pixel |
| MapApi.DefaultResolution | IPVisualizator-backend/IPVisualizator.py:247-248 | min(mask + 16, 32) lies between mask and 32 and is even for an even mask |
| MapApi.CheckMapRequest | IPVisualizator-backend/IPVisualizator.py:235-268 | an accepted request has prefixlen <= resolution <= 32, both even, and order = (resolution - prefixlen) / 2 |
| MapApi.CheckMapRequestSpec | IPVisualizator-backend/IPVisualizator.py:235-268 | 404 iff no dataset; accepted iff the network is valid, the mask even, and the resolution absent or even within prefixlen..32 |
| MapApi.DefaultResolutionValid | IPVisualizator-backend/IPVisualizator.py:247-257 | the default resolution would itself pass the explicit check |
| MapApi.PixelSquare | IPVisualizator-backend/IPVisualizator.py:268 | the 2^(resolution - prefixlen) pixels fill a square of 4^order |
| MapApi.Trunc | IPVisualizator-backend/IPVisualizator.py:281 | `int()` truncates toward zero |
| MapApi.RoundAsWrittenClose | IPVisualizator-backend/IPVisualizator.py:281 | the source's rounding gives a multiple of 10^-5, less than half of 10^-5 below the value and less than 1.5·10^-5 above it; above -0.000005 at most half of 10^-5 above |
| MapApi.RoundAsWrittenZero | IPVisualizator-backend/IPVisualizator.py:281-286 | a total rounds to 0.0, so `skip_zeros` hides it and min/max ignore it, iff it lies strictly between -0.000015 and 0.000005 |
| MapApi.RoundAsWrittenDrift | IPVisualizator-backend/IPVisualizator.py:281 | a negative value with five decimals comes back 10^-5 higher, and rounding again moves it once more |
| MapApi.Round5Close | IPVisualizator-backend/IPVisualizator.py:280-281 | the corrected rounding gives a multiple of 10^-5 within half of 10^-5 |
| MapApi.RoundAgreesAboveZero | IPVisualizator-backend/IPVisualizator.py:281 | the source's rounding agrees with the corrected one from -0.000005 up |
| MapApi.RoundNegativeDrift | IPVisualizator-backend/IPVisualizator.py:281 | the source's rounding turns -1.0 into -0.99999 |
| MapApi.RoundIdempotent | IPVisualizator-backend/IPVisualizator.py:280-281 | with the corrected rounding, rounding a rounded value changes nothing |
| MapApi.RoundAll | IPVisualizator-backend/IPVisualizator.py:278-281 | each pixel value rounded as the source does, in order, so each lies within -0.000005..+0.000015 of its total |
| MapApi.Kept | IPVisualizator-backend/IPVisualizator.py:286 | the shown indices: increasing, and exactly those not skipped as zero |
| MapApi.MapPixels | IPVisualizator-backend/IPVisualizator.py:272-297 | one pixel per shown index, with curve coordinates, label and the source's rounded value; min/max over the non-zero rounded values, 0.0 when none |
| MapApi.PixelListSpec | IPVisualizator-backend/IPVisualizator.py:278-292 | the loop's pixels are those of the shown indices so far |
| MapApi.MinOfSpec | IPVisualizator-backend/IPVisualizator.py:282-283 | the running minimum is the minimum of the non-zero values so far |
| MapApi.MaxOfSpec | IPVisualizator-backend/IPVisualizator.py:282-284 | the running maximum is the maximum of the non-zero values so far |
| MapApi.MakePixel | IPVisualizator-backend/IPVisualizator.py:287-292 | one pixel of the response |
| MapApi.PixelsAppend | IPVisualizator-backend/IPVisualizator.py:286-292 | appending a shown index's pixel extends the pixel list |
| MapApi.KeptStep | IPVisualizator-backend/IPVisualizator.py:286 | the shown indices grow by the new index iff it is shown |
| MapApi.MinStep | IPVisualizator-backend/IPVisualizator.py:282-283 | one more value moves the minimum as the loop does |
| MapApi.MaxStep | IPVisualizator-backend/IPVisualizator.py:282-284 | one more value moves the maximum as the loop does |
| MapApi.PixelsDistinctCells | IPVisualizator-backend/IPVisualizator.py:286-290 | no two shown pixels share a cell |
| MapApi.PixelsCoverSquare | IPVisualizator-backend/IPVisualizator.py:286-288 | without skip_zeros every index is shown, inside the square |
| MapApi.PixelLabel | IPVisualizator-backend/IPVisualizator.py:289-290 | a pixel's label is the first address of its block of 2^(32 - resolution) addresses |
| MapApi.GetMap | IPVisualizator-backend/IPVisualizator.py:234-300 | the checks decide the reply; an accepted map has 4^order values from `get_networks` over the loaded entries, its pixels are the shown ones, and min/max are those of the non-zero rounded values |
| MapApi.PixelValue | IPVisualizator-backend/IPVisualizator.py:269-281 | a pixel's value is the total of the entries in its block, rounded as the source does |

## Left out

- Lexer.ReadOperator, Lexer.ReadQuoted, Lexer.ReadIdent, Lexer.ReadNumber: their own contracts state only progress. Which token they return is stated by `Lexer.TwoCharOperators` and `Lexer.LoneEqualsOrBangFails` (operators), `TokenText.QuotedRead` and `Lexer.UnterminatedQuotesFail` (quoted lexemes), `Lexer.KeyWord` (words), and `TokenText.NumberRead` and `Lexer.SecondDotFails` (numbers).
- Parser.Operand, Parser.MathTimes, Parser.MathTimesRest, Parser.MathExpr, Parser.MathExprRest, Parser.CondPart, Parser.CondAnd, Parser.CondAndRest, Parser.CondOr, Parser.CondOrRest: their own contracts state only progress. What they return is stated by the round trip `Unparse.ParseTokens` and the `Precedence` lemmas.
- MapApi.RoundIdempotent: holds for the corrected rounding only. The source's rounding is not idempotent: it moves every negative five-decimal value up by 10^-5 (`RoundAsWrittenDrift`).
- Tags.Decide, Tags.TagEdits, Tags.Edits, Tags.UpdateTags: they require a well-formed record. There, "tags" is a dict of dicts that each hold a "confidence". On any other record, `rec['tags'][id]['confidence']` at tags.py:209 raises KeyError or AttributeError, and the model does not include that error. The handler's own writes keep a record well formed (`Idempotence.RunWellFormed`).
- EventCounter.Requests: the contract names the eight paths and says each is a set. The values are stated by `RequestsOrdered`, `EwmaBounds` and `BinEwmaBounds`.
- `Var.eval` with a non-dict value in the middle of a dotted path: the source raises or does a substring test; the model yields None.
- `UnCond` and `Math` nodes: the parser never builds them.
- JSONPath parsing and matching: external library calls, left as parameters.
- Python `str()` of values in info templates: left as a parameter.
- Python floating point and numpy arrays: reals instead. Overflow, NaN and infinities are not modelled.
- `math.inf` as the start of min/max is modelled as "no value yet".
- Set and dict iteration orders: fixed to configuration order, first-occurrence order, or a given order (`storedOrder`).
- Unicode classes: `str.isalpha`, `str.isdigit` and `\s` are modelled on ASCII.
- `splitlines` on bytes and the UTF-8 decode: `\n`, `\r` and `\r\n` are the only line breaks modelled.
- The regexes of the hostname classifier: external, a `search` parameter.
- A record without a `hostname` key: `rec["hostname"]` raises KeyError. The model takes the hostname as an `Option`.
- Date strings of events: integer day numbers instead.
- `datetime.utcnow()`: the current time is an argument.
- Logging and the update manager's `register_handler`/`update`: the model returns the requests.
- Redis I/O, pipelines and tokens: hashes are maps.
- Users, authorization, dataset metadata and timestamps, `delete_dataset` and `get_network`: plumbing around the modelled bookkeeping.
- `update_dataset`: its default "set" branch (redisdb.py:302-327) is a copy of `CreateDataset`'s table building, with the same `range(0, 65535)` at :311. It first deletes the old cache and bucket hashes, so an upload that reaches the KeyError also wipes the old dataset. It is left out as a copy of `CreateDataset`. The incr, decr and patch branches (:293-301) are loops of `UpdateIpRecord` calls, one per address.
- `get_ip_record`: it appears only as the stored value (0 when absent) used by `update_ip_record`.
- `IPv4Network` parsing of the map request: only the parsing of the address text is a parameter (`address`, None when it does not parse); the prefix range and host-bit checks are modelled by `MapApi.ValidNetwork`.
- The response's JSON building.

## Findings

| source | as written | input that shows it | evidently intended | confidence | as-written member | corrected member |
|---|---|---|---|---|---|---|
| IPVisualizator-backend/redisdb.py:267-278 | addresses are keyed by their text, and the size is `len(ips)` | "1.2.3.4"=1 and "01.2.3.4"=2 (both pass `IP_RE`) | one record per address, with size and totals counting it once | not executed | DatasetStore.LeadingZeroUploadInconsistent | DatasetStore.CreateDatasetFixedConsistent |
| IPVisualizator-backend/redisdb.py:263 | `range(0, 65535)` allocates buckets 0..65534; the same range recurs in `update_dataset` at :311, after the old dataset has been deleted | 255.255.0.1, whose bucket is 65535 | buckets for all 65536 /16 networks | not executed | DatasetStore.TopBucketUploadFails | DatasetStore.FixedStoreAcceptsEveryAddress |
| IPVisualizator-backend/IPVisualizator.py:281 | `int(value * 10**5 + 0.5) / 10**5` truncates toward zero | -1.0 becomes -0.99999 | rounding to five decimals | not executed | MapApi.RoundNegativeDrift | MapApi.Round5Close |

The map pipeline (`RoundAll`, `MapPixels`, `GetMap`) rounds as the source does.
`Round5` is the corrected rounding, and `RoundAgreesAboveZero` shows the two agree
from -0.000005 up. The corrected upload is
`CreateDatasetFixed`; `CreateDataset` is the upload as written. `LeadingZeroUploadInconsistent`, `TwoSpellingsUpload` and
`TopBucketUploadFails` exhibit the upload as written.
