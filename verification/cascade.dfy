/**
 * The priority cascade `get_Q_by_rules`: rules 1, 2, 3, 5, 6 and 7 are tried
 * in that order and the first one whose outcome is not the empty string
 * decides the answer (an IndexError raised by a rule that is reached ends the
 * cascade too). The empty string means that no rule produced a question.
 */
module Cascade {
  import opened PyText
  import opened Rules

  /** A rule outcome ends the cascade: a non-empty question, or an exception. */
  predicate Stops(r: Eval<string>) {
    r != Ok("")
  }

  /** `k` is the first position of `outcomes` that ends the cascade. */
  ghost predicate FirstStop(outcomes: seq<Eval<string>>, k: int) {
    && 0 <= k < |outcomes|
    && Stops(outcomes[k])
    && forall j :: 0 <= j < k ==> !Stops(outcomes[j])
  }

  /** Short-circuit evaluation of a priority list of rule outcomes. */
  function Chain(outcomes: seq<Eval<string>>): Eval<string>
    decreases |outcomes|
  {
    if |outcomes| == 0 then Ok("")
    else if Stops(outcomes[0]) then outcomes[0]
    else Chain(outcomes[1..])
  }

  /** The chain yields the outcome at the first stopping position. */
  lemma {:induction false} ChainFirstStop(outcomes: seq<Eval<string>>, k: int)
    requires FirstStop(outcomes, k)
    ensures Chain(outcomes) == outcomes[k]
    decreases k
  {
    if k > 0 {
      assert !Stops(outcomes[0]);
      assert FirstStop(outcomes[1..], k - 1) by {
        forall j | 0 <= j < k - 1
          ensures !Stops(outcomes[1..][j])
        {
          assert outcomes[1..][j] == outcomes[j + 1];
        }
      }
      ChainFirstStop(outcomes[1..], k - 1);
    }
  }

  /** With no stopping outcome the chain yields the empty string. */
  lemma {:induction false} ChainNoStop(outcomes: seq<Eval<string>>)
    requires forall j :: 0 <= j < |outcomes| ==> !Stops(outcomes[j])
    ensures Chain(outcomes) == Ok("")
    decreases |outcomes|
  {
    if |outcomes| > 0 {
      assert !Stops(outcomes[0]);
      assert forall j :: 0 <= j < |outcomes| - 1 ==> outcomes[1..][j] == outcomes[j + 1];
      ChainNoStop(outcomes[1..]);
    }
  }

  /** The outcomes of the six rules, in priority order. */
  function RuleOutcomes(wordPairs: seq<string>, tagList: seq<string>,
                        cut: string -> seq<Pair>, show: seq<string> -> string): seq<Eval<string>>
  {
    [ Rule1(wordPairs, tagList, show), Rule2(wordPairs, tagList), Rule3(wordPairs, tagList),
      Rule5(wordPairs, tagList), Rule6(wordPairs, tagList, cut), Rule7(wordPairs, tagList) ]
  }

  /** `get_Q_by_rules`, as the if/elif chain of the source: a later rule is
      evaluated only when every earlier one returned the empty string.
      `cut` is the part-of-speech tagger and `show` is Python's `str` on the
      list of items, both supplied by the caller. */
  function GetQByRules(wordPairs: seq<string>, tagList: seq<string>,
                       cut: string -> seq<Pair>, show: seq<string> -> string): (r: Eval<string>)
    ensures r in RuleOutcomes(wordPairs, tagList, cut, show)
    ensures !Stops(r) ==>
              forall j :: 0 <= j < 6 ==> !Stops(RuleOutcomes(wordPairs, tagList, cut, show)[j])
  {
    var r1 := Rule1(wordPairs, tagList, show);
    if Stops(r1) then r1 else
    var r2 := Rule2(wordPairs, tagList);
    if Stops(r2) then r2 else
    var r3 := Rule3(wordPairs, tagList);
    if Stops(r3) then r3 else
    var r5 := Rule5(wordPairs, tagList);
    if Stops(r5) then r5 else
    var r6 := Rule6(wordPairs, tagList, cut);
    if Stops(r6) then r6 else
    Rule7(wordPairs, tagList)
  }

  /** The cascade returns the outcome of the first rule, in priority order,
      that ends it, and the empty string when every rule returns it. */
  lemma CascadeFirstNonEmpty(wordPairs: seq<string>, tagList: seq<string>,
                             cut: string -> seq<Pair>, show: seq<string> -> string)
    ensures var rs := RuleOutcomes(wordPairs, tagList, cut, show);
            forall k :: FirstStop(rs, k) ==> GetQByRules(wordPairs, tagList, cut, show) == rs[k]
    ensures var rs := RuleOutcomes(wordPairs, tagList, cut, show);
            (forall j :: 0 <= j < |rs| ==> !Stops(rs[j])) ==> GetQByRules(wordPairs, tagList, cut, show) == Ok("")
  {
    var rs := RuleOutcomes(wordPairs, tagList, cut, show);
    var q := GetQByRules(wordPairs, tagList, cut, show);
    CascadeIsChain(wordPairs, tagList, cut, show);
    forall k | FirstStop(rs, k)
      ensures q == rs[k]
    {
      ChainFirstStop(rs, k);
    }
    if forall j :: 0 <= j < |rs| ==> !Stops(rs[j]) {
      ChainNoStop(rs);
    }
  }

  /** The source's if/elif chain is short-circuit evaluation of the rule list. */
  lemma CascadeIsChain(wordPairs: seq<string>, tagList: seq<string>,
                       cut: string -> seq<Pair>, show: seq<string> -> string)
    ensures GetQByRules(wordPairs, tagList, cut, show) == Chain(RuleOutcomes(wordPairs, tagList, cut, show))
  {
    var rs := RuleOutcomes(wordPairs, tagList, cut, show);
    assert rs[5..][1..] == [];
    assert Chain(rs[5..]) == if Stops(rs[5]) then rs[5] else Chain([]);
    assert rs[4..][1..] == rs[5..];
    assert Chain(rs[4..]) == if Stops(rs[4]) then rs[4] else Chain(rs[5..]);
    assert rs[3..][1..] == rs[4..];
    assert Chain(rs[3..]) == if Stops(rs[3]) then rs[3] else Chain(rs[4..]);
    assert rs[2..][1..] == rs[3..];
    assert Chain(rs[2..]) == if Stops(rs[2]) then rs[2] else Chain(rs[3..]);
    assert rs[1..][1..] == rs[2..];
    assert Chain(rs[1..]) == if Stops(rs[1]) then rs[1] else Chain(rs[2..]);
    assert rs[0..][1..] == rs[1..];
    assert Chain(rs[0..]) == if Stops(rs[0]) then rs[0] else Chain(rs[1..]);
    assert rs[0..] == rs;
  }

  /** A single segmented item always makes rule 1 fire: "什么是P?", where P
      is the text of `str(wordPairs)` before its first slash. */
  lemma SinglePairAsksWhatIs(wordPairs: seq<string>, tagList: seq<string>,
                             cut: string -> seq<Pair>, show: seq<string> -> string)
    requires |wordPairs| == 1
    ensures var p := Surface(show(wordPairs));
            && GetQByRules(wordPairs, tagList, cut, show) == Ok("什么是" + p + "?")
            && '/' !in p
            && p <= show(wordPairs)
  {
    SurfaceIsPrefixBeforeSlash(show(wordPairs));
  }

  /** With two or more items, a last item containing "简介" gives
      "<leaf>是什么?" (an empty tag list raises). */
  lemma IntroAsksLeafWhat(wordPairs: seq<string>, tagList: seq<string>,
                          cut: string -> seq<Pair>, show: seq<string> -> string)
    requires |wordPairs| >= 2
    requires Contains(wordPairs[|wordPairs| - 1], "简介")
    ensures GetQByRules(wordPairs, tagList, cut, show)
              == (if |tagList| == 0 then IndexError else Ok(Leaf(tagList) + "是什么?"))
  {
  }

  /** Rule 1 is silent: at least two items and no "简介" in the last one. */
  predicate Rule1Silent(wordPairs: seq<string>) {
    |wordPairs| >= 2 && !Contains(wordPairs[|wordPairs| - 1], "简介")
  }

  /** A question-mark surface form returns the leaf tag verbatim; an empty
      leaf tag falls through to rules 6 and 7. */
  lemma QuestionMarkReturnsLeaf(wordPairs: seq<string>, tagList: seq<string>,
                                cut: string -> seq<Pair>, show: seq<string> -> string)
    requires Rule1Silent(wordPairs)
    requires LastSurface(wordPairs) == "?" || LastSurface(wordPairs) == "？"
    requires |tagList| >= 1
    ensures Leaf(tagList) != "" ==> GetQByRules(wordPairs, tagList, cut, show) == Ok(Leaf(tagList))
    ensures Leaf(tagList) == "" ==>
              GetQByRules(wordPairs, tagList, cut, show)
                == Chain([Rule6(wordPairs, tagList, cut), Rule7(wordPairs, tagList)])
  {
  }

  /** Rules 2, 3 and 5 test the same surface form against different words,
      so at most one of them ends the cascade. */
  lemma SurfaceRulesExclusive(wordPairs: seq<string>, tagList: seq<string>)
    requires |wordPairs| >= 1
    ensures !(Stops(Rule2(wordPairs, tagList)) && Stops(Rule3(wordPairs, tagList)))
    ensures !(Stops(Rule2(wordPairs, tagList)) && Stops(Rule5(wordPairs, tagList)))
    ensures !(Stops(Rule3(wordPairs, tagList)) && Stops(Rule5(wordPairs, tagList)))
  {
  }

  /** A "概述" surface form joins the first and the second-to-last tags; with
      two tags that is the first tag twice, and with fewer it raises. An empty
      join falls through, past rule 5, to rules 6 and 7. */
  lemma OverviewJoinsFirstAndPenultimate(wordPairs: seq<string>, tagList: seq<string>,
                                         cut: string -> seq<Pair>, show: seq<string> -> string)
    requires Rule1Silent(wordPairs)
    requires LastSurface(wordPairs) == "概述"
    ensures |tagList| < 2 ==> GetQByRules(wordPairs, tagList, cut, show) == IndexError
    ensures |tagList| >= 2 && tagList[0] + tagList[|tagList| - 2] != "" ==>
              GetQByRules(wordPairs, tagList, cut, show) == Ok(tagList[0] + tagList[|tagList| - 2])
    ensures |tagList| == 2 && tagList[0] != "" ==>
              GetQByRules(wordPairs, tagList, cut, show) == Ok(tagList[0] + tagList[0])
    ensures |tagList| >= 2 && tagList[0] + tagList[|tagList| - 2] == "" ==>
              GetQByRules(wordPairs, tagList, cut, show)
                == Chain([Rule6(wordPairs, tagList, cut), Rule7(wordPairs, tagList)])
  {
    var tail := [Rule6(wordPairs, tagList, cut), Rule7(wordPairs, tagList)];
    assert tail[1..] == [tail[1]];
    assert [tail[1]][1..] == [];
    assert Chain([tail[1]]) == if Stops(tail[1]) then tail[1] else Chain([]);
    assert Chain(tail) == if Stops(tail[0]) then tail[0] else Chain([tail[1]]);
  }

  /** A "管理" surface form asks "怎么管理<first tag>", without a question mark. */
  lemma ManagementAsksHowToManage(wordPairs: seq<string>, tagList: seq<string>,
                                  cut: string -> seq<Pair>, show: seq<string> -> string)
    requires Rule1Silent(wordPairs)
    requires LastSurface(wordPairs) == "管理"
    ensures |tagList| == 0 ==> GetQByRules(wordPairs, tagList, cut, show) == IndexError
    ensures |tagList| >= 1 ==> GetQByRules(wordPairs, tagList, cut, show) == Ok("怎么管理" + tagList[0])
    // The question ends with the first tag's own last character: no "?" is appended.
    ensures |tagList| >= 1 && tagList[0] != "" ==>
              GetQByRules(wordPairs, tagList, cut, show).value[|"怎么管理" + tagList[0]| - 1]
                == tagList[0][|tagList[0]| - 1]
  {
  }

  /** Rules 1 to 5 are all silent: neither rule 1's conditions nor any of the
      surface words of rules 2, 3 and 5 apply. */
  predicate SurfaceRulesSilent(wordPairs: seq<string>) {
    Rule1Silent(wordPairs) && LastSurface(wordPairs) !in {"?", "？", "概述", "管理"}
  }

  /** Past the surface rules, the tagger's opening verb decides: when it
      fires, rule 6's question is the answer; otherwise rule 7's is. */
  lemma VerbRuleDecides(wordPairs: seq<string>, tagList: seq<string>,
                        cut: string -> seq<Pair>, show: seq<string> -> string)
    requires SurfaceRulesSilent(wordPairs)
    requires |tagList| >= 1
    ensures OpeningVerb(cut(Leaf(tagList))).Some? ==>
              GetQByRules(wordPairs, tagList, cut, show) == Rule6(wordPairs, tagList, cut)
    ensures OpeningVerb(cut(Leaf(tagList))).None? ==>
              GetQByRules(wordPairs, tagList, cut, show) == Rule7(wordPairs, tagList)
  {
  }

  /** When the tagger's first item for the leaf is a clean (slash-free)
      pair, rule 6 fires exactly for a non-empty word flagged "v"; the part
      after the verb is the rest of the leaf when the verb is its prefix. */
  lemma VerbRuleOnCleanPair(wordPairs: seq<string>, tagList: seq<string>, cut: string -> seq<Pair>)
    requires |tagList| >= 1
    requires |cut(Leaf(tagList))| >= 1
    requires '/' !in cut(Leaf(tagList))[0].word && '/' !in cut(Leaf(tagList))[0].flag
    ensures var p := cut(Leaf(tagList))[0];
            Stops(Rule6(wordPairs, tagList, cut)) <==> p.flag == "v" && p.word != ""
    ensures var p := cut(Leaf(tagList))[0];
            var leaf := Leaf(tagList);
            p.flag == "v" && p.word != "" && p.word <= leaf ==>
              exists rest :: p.word + rest == leaf
                          && Rule6(wordPairs, tagList, cut) == Ok("怎样" + p.word + tagList[0] + "的" + rest)
  {
  }

  /** A leaf opening with "与" reached by the cascade is prefixed with the
      first tag; an empty leaf reaching rule 7 raises. */
  lemma RelationPrefixesFirstTag(wordPairs: seq<string>, tagList: seq<string>,
                                 cut: string -> seq<Pair>, show: seq<string> -> string)
    requires SurfaceRulesSilent(wordPairs)
    requires |tagList| >= 1
    requires OpeningVerb(cut(Leaf(tagList))).None?
    ensures Leaf(tagList) == "" ==> GetQByRules(wordPairs, tagList, cut, show) == IndexError
    ensures Leaf(tagList) != "" && Leaf(tagList)[0] == '与' ==>
              GetQByRules(wordPairs, tagList, cut, show) == Ok(tagList[0] + Leaf(tagList))
    ensures Leaf(tagList) != "" && Leaf(tagList)[0] != '与' ==>
              GetQByRules(wordPairs, tagList, cut, show) == Ok("")
  {
  }

  /** An empty segmentation raises in rule 1, before any other rule. */
  lemma EmptySegmentationRaises(tagList: seq<string>, cut: string -> seq<Pair>, show: seq<string> -> string)
    ensures GetQByRules([], tagList, cut, show) == IndexError
  {
  }

  /** The cascade never raises when there is at least one item and one tag,
      the leaf tag is non-empty, and a "概述" surface form comes with at
      least two tags. */
  lemma NeverRaises(wordPairs: seq<string>, tagList: seq<string>,
                    cut: string -> seq<Pair>, show: seq<string> -> string)
    requires |wordPairs| >= 1 && |tagList| >= 1 && Leaf(tagList) != ""
    requires LastSurface(wordPairs) == "概述" ==> |tagList| >= 2
    ensures GetQByRules(wordPairs, tagList, cut, show).Ok?
  {
  }
}
