# Rule-based question generation, modelled in Dafny

The question-answering system builds the questions of its question–answer pairs from the breadcrumb of
topic labels that heads each help page, for example
`帮助中心 > 云容器引擎 > 用户指南 > 操作指南 > 存储管理`. Two inputs drive the
generator: `tagList`, the labels from root to leaf, and `wordPairs`, the
part-of-speech segmentation of the leaf label (each item written `word/flag`).
The generator tries six rules in a fixed order: rule 1, 2, 3, 5, 6, then 7. The first
rule that returns a non-empty string supplies the question. If every rule returns
`''`, the result is `''`.

The model has three modules:

- `PyText` (`py_text.dfy`) holds the Python primitives the rules use.
  - It covers indexing with negative indices, the slice `s[k:]`, `str.split('/')` and the `in` test on strings.
  - Split and `in` have partner lemmas: split/join round trips in both directions, the "prefix before the first slash" characterisation, and scan-versus-position for substrings. Indexing and the slice are specified by their contracts.
  - `IndexError` is an explicit outcome, `Eval.IndexError`. It propagates with `:-`, as the Python exception does.
- `Rules` (`rules.dfy`) holds the six rules. Each one follows its Python body step by step. Its contract gives the exact output, including when it raises.
- `Cascade` (`cascade.dfy`) holds `get_Q_by_rules` as the source's if/elif chain. It proves that this chain equals short-circuit evaluation of the rule list. It also has one lemma per rule describing what the whole cascade returns once that rule is reached.

Two collaborators are parameters, not code:

- `cut: string -> seq<Pair>` is the jieba part-of-speech tagger.
- `show: seq<string> -> string` is Python's `str()` applied to the whole `wordPairs` list.

What the code does, contrasted with the source's own comments:

- Rule 2 returns the leaf tag when the last segmented item's surface form is `?` or `？` (model/handle_data/rule_generate_question.py:79-81). Its docstring (:69) describes a different check, for a leaf opening with a question word.
- Rule 1's `简介` test looks at the last segmented item (:59). The comment at :18 speaks of the last tag.
- Rule 3 indexes `tagList[-2]` without a guard (:96), so fewer than two tags raise `IndexError`.
- Rule 5 returns `怎么管理X` with no question mark (:109). Its docstring (:102) writes the template as `怎么管理… …?`, with one.
- Rule 6 ignores `wordPairs` and segments the leaf tag again through `cut` (:119).
- Rule 7 indexes `tagList[-1][0]` (:139), so an empty leaf tag that reaches rule 7 raises.

Items of `wordPairs` are modelled as their rendered strings `word/flag`. Under that
reading, `'简介' in wordPairs[-1]` is a substring test (`Contains`). If the items were
jieba `pair` objects, the test would instead compare against the word and the flag
separately. This model does not cover that reading.

Instead of adding preconditions, the model records where Python raises `IndexError`:
an empty `wordPairs`, an empty `tagList`, an empty leaf, or fewer than two tags at rule 3.
`Cascade.NeverRaises` shows that the cascade returns a string whenever these cases are excluded.

## Model

| member | source | states |
|---|---|---|
| PyText.Index | model/handle_data/rule_generate_question.py:96 | `xs[i]` succeeds exactly for `-len(xs) <= i < len(xs)`, and a negative index counts from the end |
| PyText.SliceFrom | model/handle_data/rule_generate_question.py:125 | `s[k:]` is the part of `s` after its first `k` characters, and is empty once `k` passes the end |
| PyText.Split | model/handle_data/rule_generate_question.py:79 | `split('/')` returns at least one piece, and no piece contains the separator |
| PyText.JoinSplit | model/handle_data/rule_generate_question.py:79 | joining the pieces of a split with the separator gives back the original string |
| PyText.SplitJoin | model/handle_data/rule_generate_question.py:123-124 | splitting separator-free pieces joined by the separator gives back exactly those pieces |
| PyText.SplitPrefix | model/handle_data/rule_generate_question.py:79 | a separator-free prefix is glued onto the first piece of what follows it |
| PyText.FirstFieldIsPrefixBeforeSep | model/handle_data/rule_generate_question.py:79 | `split(sep)[0]` is a prefix of the string, has no separator, and is followed by the separator or by the end |
| PyText.SplitAtSep | model/handle_data/rule_generate_question.py:123 | a string containing the separator splits into at least two pieces, so `[1]` does not raise |
| PyText.ContainsIffOccurs | model/handle_data/rule_generate_question.py:59 | the `in` test on strings holds exactly when the needle occurs at some position of the haystack |
| Rules.SurfaceIsPrefixBeforeSlash | model/handle_data/rule_generate_question.py:79 | an item's surface form is its text before the first `/`, or the whole text when there is no `/` |
| Rules.RenderFields | model/handle_data/rule_generate_question.py:123-124 | `str(pair).split('/')` has a second field; when word and flag have no `/`, the fields are exactly the word and the flag |
| Rules.Rule1 | model/handle_data/rule_generate_question.py:56-62 | one item gives `什么是P?` with P taken from `str(wordPairs)` before its first `/`; otherwise a last item containing `简介` gives `<leaf>是什么?`; no items, or no tags on that branch, raise |
| Rules.Rule2 | model/handle_data/rule_generate_question.py:78-83 | a last-item surface form of `?` or `？` returns the leaf tag verbatim; any other surface form gives `''`; no items, or no tags on the match, raise |
| Rules.Rule3 | model/handle_data/rule_generate_question.py:92-97 | a last-item surface form of `概述` gives the first tag followed by the second-to-last tag, and raises with fewer than two tags |
| Rules.Rule5 | model/handle_data/rule_generate_question.py:105-111 | a last-item surface form of `管理` gives exactly `怎么管理` followed by the first tag, with no question mark |
| Rules.Rule6 | model/handle_data/rule_generate_question.py:118-130 | raises only on an empty tag list; when the tagger's first item for the leaf is a non-empty verb w, gives `怎样` + w + first tag + `的` + leaf[len(w):], where the slice is empty past the end; otherwise `''` |
| Rules.OpeningVerb | model/handle_data/rule_generate_question.py:122-126 | for a slash-free first item the result depends on that item alone; a verb found is non-empty, slash-free and a prefix of `str(pair)`; for a slash-free pair it is exactly the word when the flag is `v` and the word is non-empty, and absent otherwise |
| Rules.Rule7 | model/handle_data/rule_generate_question.py:137-142 | a leaf starting with `与` is prefixed with the first tag; any other non-empty leaf gives `''`; an empty leaf or an empty tag list raises |
| Cascade.GetQByRules | model/handle_data/rule_generate_question.py:146-178 | the result is always one of the six rule outcomes, and it is `''` only when every rule returned `''`; its full contract is carried by `CascadeIsChain` and `CascadeFirstNonEmpty` |
| Cascade.CascadeIsChain | model/handle_data/rule_generate_question.py:156-173 | the if/elif chain equals short-circuit evaluation of the rule outcomes in the order 1, 2, 3, 5, 6, 7 |
| Cascade.ChainFirstStop | model/handle_data/rule_generate_question.py:156-173 | short-circuit evaluation yields the outcome at the first position that is non-empty or raises |
| Cascade.ChainNoStop | model/handle_data/rule_generate_question.py:156-178 | when every outcome is `''`, short-circuit evaluation yields `''` |
| Cascade.CascadeFirstNonEmpty | model/handle_data/rule_generate_question.py:156-178 | the cascade returns the first rule outcome, in priority order, that is non-empty or raises, and `''` when all six are empty; it falls through on an empty result, not on a failed condition |
| Cascade.SinglePairAsksWhatIs | model/handle_data/rule_generate_question.py:57-58 | with exactly one item the whole cascade returns `什么是P?`, where P is a slash-free prefix of `str(wordPairs)` |
| Cascade.IntroAsksLeafWhat | model/handle_data/rule_generate_question.py:59-60 | with two or more items and `简介` in the last one, the cascade returns `<leaf>是什么?`, or raises when there are no tags |
| Cascade.QuestionMarkReturnsLeaf | model/handle_data/rule_generate_question.py:79-81 | once rule 1 is silent, a `?`/`？` surface form makes the cascade return the leaf tag verbatim; an empty leaf falls through to rules 6 and 7 |
| Cascade.SurfaceRulesExclusive | model/handle_data/rule_generate_question.py:79-108 | at most one of rules 2, 3 and 5 ends the cascade for any input with at least one item |
| Cascade.OverviewJoinsFirstAndPenultimate | model/handle_data/rule_generate_question.py:93-96 | once rule 1 is silent, a `概述` surface form returns the first tag followed by the second-to-last tag, which is the first tag twice when there are two tags, when that text is non-empty; an empty result falls through to rules 5 to 7, where rule 5 gives `''`; fewer than two tags raise |
| Cascade.ManagementAsksHowToManage | model/handle_data/rule_generate_question.py:106-109 | once rule 1 is silent, a `管理` surface form returns `怎么管理` followed by the first tag; when the first tag is non-empty, the question ends in that tag's last character |
| Cascade.VerbRuleDecides | model/handle_data/rule_generate_question.py:169-173 | once rules 1 to 5 are silent, the tagger's opening verb decides between rule 6's question and rule 7's outcome |
| Cascade.VerbRuleOnCleanPair | model/handle_data/rule_generate_question.py:119-128 | for a slash-free first tagger item, rule 6 fires exactly when the item is a non-empty word flagged `v`; when the verb is a prefix of the leaf, verb + remainder is the leaf |
| Cascade.RelationPrefixesFirstTag | model/handle_data/rule_generate_question.py:139-140 | once rules 1 to 6 are silent, a leaf starting with `与` makes the cascade return first tag + leaf, any other non-empty leaf gives `''`, and an empty leaf raises |
| Cascade.EmptySegmentationRaises | model/handle_data/rule_generate_question.py:59 | an empty segmentation raises in rule 1, whatever the tags are |
| Cascade.NeverRaises | model/handle_data/rule_generate_question.py:156-173 | with at least one item, a non-empty leaf tag, and two tags whenever the surface form is `概述`, the cascade always returns a string |

## Left out

- The jieba tagger (`jieba.posseg`, model/handle_data/rule_generate_question.py:12 and :119) is a foreign library. It is the parameter `cut`, and segmentation itself is not modelled.
- The text of `str(wordPairs)` (model/handle_data/rule_generate_question.py:58) depends on Python's list `repr`. It is the parameter `show`. An observation about the source (not executed): `str` of a list includes the list brackets and quotes. For a single item `w/f` held as a string, the list text is `['w/f']`, so rule 1 asks `什么是['w?`. For a jieba `pair`, the text is `[pair('w', 'f')]`, which has no slash, so the question is `什么是[pair('w', 'f')]?`. Because `show` is left abstract, the model does not exhibit this.
- The membership test `'简介' in wordPairs[-1]` is modelled as a substring test on the rendered item. If the items are jieba `pair` objects, Python would compare against the word and the flag instead. That reading is not modelled.
- `get_Q_by_rules` evaluates every rule it takes twice, once to test and once to assign (model/handle_data/rule_generate_question.py:157-173). Since every rule is a function of its inputs, the model evaluates each rule once.
- Rules "four" and "eight" and the list of open problems exist only as comments (model/handle_data/rule_generate_question.py:25, 33, 35-41). No code implements them.
- The commented-out prints (model/handle_data/rule_generate_question.py:175-180) are dead code.
- be/app/Http/Controllers/AppController.php is a web controller. All its behaviour is database queries and session side effects through framework facades, so it is not part of this model.
- Strings are Python 3 `str` values, which are sequences of code points, and the model is faithful only under that reading. Under Python 2 byte strings, three places would behave differently:
  - `'怎么管理%s' % (tagList[0])` (model/handle_data/rule_generate_question.py:109) could raise UnicodeDecodeError when the tag is a unicode string.
  - `[len(v_word):]` (:125) would count bytes, not characters.
  - `'与' == tagList[-1][0]` (:139) would compare a three-byte literal with a single byte, so rule 7 could never fire.
- Idempotence of the cascade needs no lemma: Dafny functions are deterministic, and the collaborators are fixed functions passed in as parameters.
