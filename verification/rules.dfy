/**
 * The six question rules of the generator. Each takes the segmentation of
 * the leaf tag (`wordPairs`, every item rendered as "word/flag") and the
 * breadcrumb of tags from root to leaf (`tagList`), and yields a question,
 * the empty string when the rule does not apply, or IndexError where the
 * Python code indexes out of range. Each function follows the Python body
 * step by step; its contract says the same thing in plain indices.
 */
module Rules {
  import opened PyText

  /** One item of the part-of-speech tagger's output: a word and its flag. */
  datatype Pair = Pair(word: string, flag: string)

  /** `str(pair)`: the word and its flag separated by a slash. */
  function Render(p: Pair): string {
    p.word + "/" + p.flag
  }

  /** `str(x).split('/')[0]`: the text before the first slash. */
  function Surface(s: string): string {
    Split(s, '/')[0]
  }

  /** The surface form `str(wordPairs[-1]).split('/')[0]` of the last item. */
  function LastSurface(wordPairs: seq<string>): string
    requires |wordPairs| >= 1
  {
    Surface(wordPairs[|wordPairs| - 1])
  }

  /** The leaf tag `tagList[-1]`. */
  function Leaf(tagList: seq<string>): string
    requires |tagList| >= 1
  {
    tagList[|tagList| - 1]
  }

  /** The surface form is exactly the prefix before the first slash. */
  lemma SurfaceIsPrefixBeforeSlash(s: string)
    ensures Surface(s) <= s
    ensures '/' !in Surface(s)
    ensures |Surface(s)| == |s| || s[|Surface(s)|] == '/'
  {
    FirstFieldIsPrefixBeforeSep(s, '/');
  }

  /** A rendered pair has a second slash-separated field, so `split('/')[1]`
      never raises; when neither word nor flag contains a slash the two
      fields are the word and the flag themselves. */
  lemma RenderFields(p: Pair)
    ensures |Split(Render(p), '/')| >= 2
    ensures '/' !in p.word && '/' !in p.flag ==> Split(Render(p), '/') == [p.word, p.flag]
  {
    assert Render(p)[|p.word|] == '/';
    SplitAtSep(Render(p), '/');
    if '/' !in p.word && '/' !in p.flag {
      assert Join([p.word, p.flag], '/') == Render(p);
      SplitJoin([p.word, p.flag], '/');
    }
  }

  /** Rule 1: a single segmented item gives "什么是<item>?", taking the item
      from `str(wordPairs)` up to its first slash; otherwise a last item
      containing "简介" gives "<leaf>是什么?". */
  function Rule1(wordPairs: seq<string>, tagList: seq<string>, show: seq<string> -> string): (r: Eval<string>)
    ensures |wordPairs| == 0 ==> r == IndexError
    ensures |wordPairs| == 1 ==> r == Ok("什么是" + Surface(show(wordPairs)) + "?")
    ensures |wordPairs| >= 2 && Occurs(wordPairs[|wordPairs| - 1], "简介") ==>
              r == (if |tagList| == 0 then IndexError else Ok(Leaf(tagList) + "是什么?"))
    ensures |wordPairs| >= 2 && !Occurs(wordPairs[|wordPairs| - 1], "简介") ==> r == Ok("")
  {
    if |wordPairs| == 1 then
      Ok("什么是" + Split(show(wordPairs), '/')[0] + "?")
    else
      var last :- Index(wordPairs, |wordPairs| - 1);
      ContainsIffOccurs(last, "简介");
      if Contains(last, "简介") then
        var leaf :- Index(tagList, |tagList| - 1);
        Ok(leaf + "是什么?")
      else
        Ok("")
  }

  /** Rule 2: when the last item's surface form is a question mark (ASCII or
      full-width), the leaf tag itself is the question. */
  function Rule2(wordPairs: seq<string>, tagList: seq<string>): (r: Eval<string>)
    ensures |wordPairs| == 0 ==> r == IndexError
    ensures |wordPairs| >= 1 && LastSurface(wordPairs) in {"?", "？"} ==>
              r == (if |tagList| == 0 then IndexError else Ok(Leaf(tagList)))
    ensures |wordPairs| >= 1 && LastSurface(wordPairs) !in {"?", "？"} ==> r == Ok("")
  {
    var last :- Index(wordPairs, |wordPairs| - 1);
    var lastChar := Split(last, '/')[0];
    if lastChar == "?" || lastChar == "？" then Index(tagList, |tagList| - 1) else Ok("")
  }

  /** Rule 3: when the last item's surface form is "概述", the first tag
      followed by the second-to-last tag; fewer than two tags raise. */
  function Rule3(wordPairs: seq<string>, tagList: seq<string>): (r: Eval<string>)
    ensures |wordPairs| == 0 ==> r == IndexError
    ensures |wordPairs| >= 1 && LastSurface(wordPairs) == "概述" ==>
              r == (if |tagList| < 2 then IndexError else Ok(tagList[0] + tagList[|tagList| - 2]))
    ensures |wordPairs| >= 1 && LastSurface(wordPairs) != "概述" ==> r == Ok("")
  {
    var last :- Index(wordPairs, |wordPairs| - 1);
    var lastChar := Split(last, '/')[0];
    if lastChar == "概述" then
      var first :- Index(tagList, 0);
      var penultimate :- Index(tagList, -2);
      Ok(first + penultimate)
    else
      Ok("")
  }

  /** Rule 5: when the last item's surface form is "管理", "怎么管理" followed
      by the first tag, with no question mark added. */
  function Rule5(wordPairs: seq<string>, tagList: seq<string>): (r: Eval<string>)
    ensures |wordPairs| == 0 ==> r == IndexError
    ensures |wordPairs| >= 1 && LastSurface(wordPairs) == "管理" ==>
              r == (if |tagList| == 0 then IndexError else Ok("怎么管理" + tagList[0]))
    ensures |wordPairs| >= 1 && LastSurface(wordPairs) != "管理" ==> r == Ok("")
  {
    var last :- Index(wordPairs, |wordPairs| - 1);
    var lastChar := Split(last, '/')[0];
    if lastChar == "管理" then
      var first :- Index(tagList, 0);
      Ok("怎么管理" + first)
    else
      Ok("")
  }

  /** The word of the verb that opens a segmentation, read back through
      `str(pair).split('/')` as rule 6 does; `None` when the first item is
      missing, is not flagged "v", or has an empty word. */
  function OpeningVerb(seg: seq<Pair>): (v: Option<string>)
    ensures v.Some? ==> |seg| >= 1 && v.value != "" && '/' !in v.value && v.value <= Render(seg[0])
    ensures |seg| >= 1 && '/' !in seg[0].word && '/' !in seg[0].flag ==>
              v == (if seg[0].flag == "v" && seg[0].word != "" then Some(seg[0].word) else None)
  {
    if |seg| == 0 then None
    else
      RenderFields(seg[0]);
      FirstFieldIsPrefixBeforeSep(Render(seg[0]), '/');
      var fields := Split(Render(seg[0]), '/');
      if fields[1] == "v" && fields[0] != "" then Some(fields[0]) else None
  }

  /** Rule 6: re-segments the leaf tag itself (`wordPairs` plays no part);
      when the first item is a non-empty verb `w`, the question is
      "怎样" + w + first tag + "的" + the leaf with `len(w)` characters cut
      off its front. */
  function Rule6(wordPairs: seq<string>, tagList: seq<string>, cut: string -> seq<Pair>): (r: Eval<string>)
    ensures |tagList| == 0 ==> r == IndexError
    ensures |tagList| >= 1 && OpeningVerb(cut(Leaf(tagList))).None? ==> r == Ok("")
    ensures |tagList| >= 1 && OpeningVerb(cut(Leaf(tagList))).Some? ==>
              var w := OpeningVerb(cut(Leaf(tagList))).value;
              var leaf := Leaf(tagList);
              r == Ok("怎样" + w + tagList[0] + "的" + (if |w| <= |leaf| then leaf[|w|..] else ""))
  {
    var leaf :- Index(tagList, -1);
    var seg := cut(leaf);
    if |seg| == 0 then Ok("")
    else
      RenderFields(seg[0]);
      var fields := Split(Render(seg[0]), '/');
      var flag :- Index(fields, 1);
      if flag == "v" then
        var vWord := fields[0];
        var nWord := SliceFrom(leaf, |vWord|);
        if vWord != "" then
          var first :- Index(tagList, 0);
          Ok("怎样" + vWord + first + "的" + nWord)
        else
          Ok("")
      else
        Ok("")
  }

  /** Rule 7: a leaf tag opening with "与" is prefixed with the first tag;
      an empty leaf tag raises. */
  function Rule7(wordPairs: seq<string>, tagList: seq<string>): (r: Eval<string>)
    ensures |tagList| == 0 || Leaf(tagList) == "" ==> r == IndexError
    ensures |tagList| >= 1 && Leaf(tagList) != "" && Leaf(tagList)[0] == '与' ==>
              r == Ok(tagList[0] + Leaf(tagList))
    ensures |tagList| >= 1 && Leaf(tagList) != "" && Leaf(tagList)[0] != '与' ==> r == Ok("")
  {
    var leaf :- Index(tagList, -1);
    var head :- Index(leaf, 0);
    if head == '与' then
      var first :- Index(tagList, 0);
      Ok(first + leaf)
    else
      Ok("")
  }
}
