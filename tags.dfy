/** The tag manager: a fixed two-level taxonomy, the token-overlap relevance
    test, the capped classifier walk and the `#tag` formatter. */
module TagManager {
  import opened Text

  /** A category of the taxonomy with the names of its subcategories; the
      taxonomy is two levels deep, so a subcategory is only a name. */
  datatype TagCategory = TagCategory(name: string, subcategories: seq<string>)

  // ---------------------------------------------------------------------------
  // The shape of the taxonomy

  /** `child` is `parent` followed by `-` and more. */
  predicate ChildOf(parent: string, child: string) {
    |parent| < |child| && child[|parent|] == '-' &&
    forall k :: 0 <= k < |parent| ==> child[k] == parent[k]
  }

  /** A name made of lower-case ASCII letters and `-`. */
  predicate PlainName(s: string) {
    forall k :: 0 <= k < |s| ==> ('a' <= s[k] <= 'z') || s[k] == '-'
  }

  predicate CategoryWellFormed(c: TagCategory) {
    && '-' !in c.name
    && PlainName(c.name)
    && (forall j :: 0 <= j < |c.subcategories| ==> PlainName(c.subcategories[j]))
    && (forall j :: 0 <= j < |c.subcategories| ==> ChildOf(c.name, c.subcategories[j]))
    && Distinct(c.subcategories)
  }

  /** Every category name is a single piece, every subcategory name extends its
      parent's, and the category names are distinct. */
  predicate TaxonomyWellFormed(h: seq<TagCategory>) {
    && AllWellFormed(h)
    && (forall i, j :: 0 <= i < j < |h| ==> h[i].name != h[j].name)
  }

  // The entries of `TAG_HIERARCHY`, in definition order.
  const CONCEPT: TagCategory := TagCategory("concept", [])
  const TUTORIAL: TagCategory := TagCategory("tutorial", [])
  const PROJECT: TagCategory := TagCategory("project", [])
  const REFERENCE: TagCategory := TagCategory("reference", [])
  const IDEA: TagCategory := TagCategory("idea", [])
  const REMIND: TagCategory := TagCategory("remind", ["remind-product", "remind-clients", "remind-internal", "remind-strategy"])
  const AI: TagCategory := TagCategory("ai", ["ai-openai", "ai-anthropic", "ai-google", "ai-tools", "ai-ethics", "ai-research"])
  const TECH: TagCategory := TagCategory("tech", ["tech-programming", "tech-python", "tech-javascript", "tech-data", "tech-cloud"])
  const BUSINESS: TagCategory := TagCategory("business", ["business-strategy", "business-management", "business-ethics", "business-leadership"])
  const MARKETING: TagCategory := TagCategory("marketing", ["marketing-digital", "marketing-content", "marketing-analytics", "marketing-strategy"])
  const ANALYTICS: TagCategory := TagCategory("analytics", ["analytics-data", "analytics-metrics", "analytics-reporting", "analytics-tools"])
  const DESIGN: TagCategory := TagCategory("design", ["design-ui", "design-ux", "design-graphic", "design-product", "design-thinking"])
  const PHILOSOPHY: TagCategory := TagCategory("philosophy", ["philosophy-ethics", "philosophy-logic", "philosophy-mind"])
  const TODO: TagCategory := TagCategory("todo", [])
  const INPROGRESS: TagCategory := TagCategory("inprogress", [])
  const COMPLETED: TagCategory := TagCategory("completed", [])
  const REVIEW: TagCategory := TagCategory("review", [])

  /** The taxonomy, in the order the classifier walks it. */
  const TAG_HIERARCHY: seq<TagCategory> := [
    CONCEPT, TUTORIAL, PROJECT, REFERENCE, IDEA, REMIND,
    AI, TECH, BUSINESS, MARKETING, ANALYTICS, DESIGN,
    PHILOSOPHY, TODO, INPROGRESS, COMPLETED, REVIEW
  ]

  const MAX_TAGS: nat := 7

  predicate Distinct(s: seq<string>) {
    forall i, j :: 0 <= i < j < |s| ==> s[i] != s[j]
  }

  // ---------------------------------------------------------------------------
  // Relevance

  /** One word contains the other. */
  predicate Overlaps(word: string, piece: string) {
    Includes(word, piece) || Includes(piece, word)
  }

  /** `contentWords.some(w => w.includes(piece) || piece.includes(w))`. */
  predicate SomeWordOverlaps(words: seq<string>, piece: string)
    decreases |words|
  {
    |words| > 0 && (Overlaps(words[0], piece) || SomeWordOverlaps(words[1..], piece))
  }

  /** `tagWords.every(piece => ...)`. */
  predicate EveryPieceFound(pieces: seq<string>, words: seq<string>)
    decreases |pieces|
  {
    |pieces| == 0 || (SomeWordOverlaps(words, pieces[0]) && EveryPieceFound(pieces[1..], words))
  }

  /** `isContentRelevant`: every `-`-piece of the tag overlaps some
      whitespace-separated word of the content. */
  predicate IsContentRelevant(content: string, tag: string) {
    EveryPieceFound(Split(tag, '-'), SplitWs(content))
  }

  lemma {:induction false} SomeWordIff(words: seq<string>, piece: string)
    ensures SomeWordOverlaps(words, piece) <==> exists w :: w in words && Overlaps(w, piece)
    decreases |words|
  {
    if |words| > 0 {
      SomeWordIff(words[1..], piece);
      assert words == [words[0]] + words[1..];
    }
  }

  lemma {:induction false} EveryPieceIff(pieces: seq<string>, words: seq<string>)
    ensures EveryPieceFound(pieces, words) <==>
            forall p :: p in pieces ==> exists w :: w in words && Overlaps(w, p)
    decreases |pieces|
  {
    if |pieces| > 0 {
      EveryPieceIff(pieces[1..], words);
      SomeWordIff(words, pieces[0]);
      if EveryPieceFound(pieces, words) {
        forall p | p in pieces ensures exists w :: w in words && Overlaps(w, p) {
          if p != pieces[0] {
            assert p in pieces[1..];
          }
        }
      }
      if forall p :: p in pieces ==> exists w :: w in words && Overlaps(w, p) {
        assert pieces[0] in pieces;
        forall p | p in pieces[1..] ensures exists w :: w in words && Overlaps(w, p) {
          assert p in pieces;
        }
      }
    }
  }

  /** The relevance test in quantified form: every piece of the tag has a word
      of the content that contains it or that it contains. */
  ghost predicate RelevantByQuantifiers(content: string, tag: string) {
    forall p :: p in Split(tag, '-') ==> exists w :: w in SplitWs(content) && Overlaps(w, p)
  }


  lemma RelevantIff(content: string, tag: string)
    ensures IsContentRelevant(content, tag) <==> RelevantByQuantifiers(content, tag)
  {
    EveryPieceIff(Split(tag, '-'), SplitWs(content));
  }

  /** Relevance is monotone in the pieces: a tag whose pieces all occur among the
      pieces of a relevant tag is relevant too. */
  lemma RelevantMonotone(content: string, tag: string, narrower: string)
    requires IsContentRelevant(content, tag)
    requires forall p :: p in Split(narrower, '-') ==> p in Split(tag, '-')
    ensures IsContentRelevant(content, narrower)
  {
    RelevantIff(content, tag);
    RelevantIff(content, narrower);
  }

  /** An empty word (from empty content, or a leading or trailing whitespace run)
      is contained in every piece, so it makes every tag relevant. */
  lemma EmptyWordRelevant(content: string, tag: string)
    requires "" in SplitWs(content)
    ensures IsContentRelevant(content, tag)
  {
    RelevantIff(content, tag);
    forall p | p in Split(tag, '-') ensures exists w :: w in SplitWs(content) && Overlaps(w, p) {
      IncludesEmpty(p);
      assert Overlaps("", p);
    }
  }

  lemma HierarchyWellFormed()
    ensures TaxonomyWellFormed(TAG_HIERARCHY)
  {
    var q1 := [CONCEPT, TUTORIAL, PROJECT, REFERENCE, IDEA];
    var q2 := [REMIND, AI, TECH, BUSINESS];
    var q3 := [MARKETING, ANALYTICS, DESIGN, PHILOSOPHY];
    var q4 := [TODO, INPROGRESS, COMPLETED, REVIEW];
    FirstLeavesWellFormed(q1);
    FirstParentsWellFormed(q2);
    LastParentsWellFormed(q3);
    LastLeavesWellFormed(q4);
    AllWellFormedConcat(q1, q2);
    AllWellFormedConcat(q1 + q2, q3);
    AllWellFormedConcat(q1 + q2 + q3, q4);
    assert TAG_HIERARCHY == q1 + q2 + q3 + q4;
    HierarchyNamesDistinct();
  }

  /** Every category of `h` is well formed. */
  predicate AllWellFormed(h: seq<TagCategory>) {
    forall i :: 0 <= i < |h| ==> CategoryWellFormed(h[i])
  }

  lemma AllWellFormedConcat(a: seq<TagCategory>, b: seq<TagCategory>)
    requires AllWellFormed(a) && AllWellFormed(b)
    ensures AllWellFormed(a + b)
  {
    forall i | 0 <= i < |a + b| ensures CategoryWellFormed((a + b)[i]) {
      if i >= |a| {
        assert (a + b)[i] == b[i - |a|];
      }
    }
  }

  /** The category names of the taxonomy are distinct. */
  lemma HierarchyNamesDistinct()
    ensures forall i, j :: 0 <= i < j < |TAG_HIERARCHY| ==> TAG_HIERARCHY[i].name != TAG_HIERARCHY[j].name
  {
    var first := ["concept", "tutorial", "project", "reference", "idea", "remind", "ai", "tech"];
    var second := ["business", "marketing", "analytics", "design", "philosophy", "todo",
                   "inprogress", "completed", "review"];
    var names := CategoryNames(TAG_HIERARCHY);
    assert names == first + second;
    FirstNamesDistinct(first);
    SecondNamesDistinct(second);
    NameHalvesDisjoint(first, second);
    DistinctConcat(first, second);
    forall i, j | 0 <= i < j < |TAG_HIERARCHY| ensures TAG_HIERARCHY[i].name != TAG_HIERARCHY[j].name {
      assert names[i] != names[j];
    }
  }

  lemma FirstLeavesWellFormed(q: seq<TagCategory>)
    requires q == [CONCEPT, TUTORIAL, PROJECT, REFERENCE, IDEA]
    ensures AllWellFormed(q)
  {
    ConceptWellFormed();
    TutorialWellFormed();
    ProjectWellFormed();
    ReferenceWellFormed();
    IdeaWellFormed();
  }

  lemma FirstParentsWellFormed(q: seq<TagCategory>)
    requires q == [REMIND, AI, TECH, BUSINESS]
    ensures AllWellFormed(q)
  {
    RemindWellFormed();
    AiWellFormed();
    TechWellFormed();
    BusinessWellFormed();
  }

  lemma LastParentsWellFormed(q: seq<TagCategory>)
    requires q == [MARKETING, ANALYTICS, DESIGN, PHILOSOPHY]
    ensures AllWellFormed(q)
  {
    MarketingWellFormed();
    AnalyticsWellFormed();
    DesignWellFormed();
    PhilosophyWellFormed();
  }

  lemma LastLeavesWellFormed(q: seq<TagCategory>)
    requires q == [TODO, INPROGRESS, COMPLETED, REVIEW]
    ensures AllWellFormed(q)
  {
    TodoWellFormed();
    InprogressWellFormed();
    CompletedWellFormed();
    ReviewWellFormed();
  }

  /** A category whose subcategories are its name, `-` and a plain suffix
      each, the naming every subcategory of the taxonomy follows. */
  lemma SuffixedWellFormed(c: TagCategory, suffixes: seq<string>)
    requires '-' !in c.name && PlainName(c.name)
    requires |c.subcategories| == |suffixes|
    requires forall j :: 0 <= j < |suffixes| ==> c.subcategories[j] == c.name + "-" + suffixes[j]
    requires forall j :: 0 <= j < |suffixes| ==> PlainName(suffixes[j])
    requires Distinct(suffixes)
    ensures CategoryWellFormed(c)
  {
    var name := c.name;
    forall i, j | 0 <= i < j < |suffixes| ensures c.subcategories[i] != c.subcategories[j] {
      assert c.subcategories[i][|name| + 1..] == suffixes[i];
      assert c.subcategories[j][|name| + 1..] == suffixes[j];
    }
    forall j | 0 <= j < |suffixes| ensures PlainName(c.subcategories[j]) {
      var t := c.subcategories[j];
      var u := suffixes[j];
      assert PlainName(u) && PlainName(name);
      forall k | 0 <= k < |t| ensures ('a' <= t[k] <= 'z') || t[k] == '-' {
        if k > |name| {
          assert t[k] == u[k - |name| - 1];
        } else if k < |name| {
          assert t[k] == name[k];
        }
      }
    }
  }

  lemma ConceptWellFormed()
    ensures CategoryWellFormed(CONCEPT)
  {
    SuffixedWellFormed(CONCEPT, []);
  }

  lemma TutorialWellFormed()
    ensures CategoryWellFormed(TUTORIAL)
  {
    SuffixedWellFormed(TUTORIAL, []);
  }

  lemma ProjectWellFormed()
    ensures CategoryWellFormed(PROJECT)
  {
    SuffixedWellFormed(PROJECT, []);
  }

  lemma ReferenceWellFormed()
    ensures CategoryWellFormed(REFERENCE)
  {
    SuffixedWellFormed(REFERENCE, []);
  }

  lemma IdeaWellFormed()
    ensures CategoryWellFormed(IDEA)
  {
    SuffixedWellFormed(IDEA, []);
  }

  lemma TodoWellFormed()
    ensures CategoryWellFormed(TODO)
  {
    SuffixedWellFormed(TODO, []);
  }

  lemma InprogressWellFormed()
    ensures CategoryWellFormed(INPROGRESS)
  {
    SuffixedWellFormed(INPROGRESS, []);
  }

  lemma CompletedWellFormed()
    ensures CategoryWellFormed(COMPLETED)
  {
    SuffixedWellFormed(COMPLETED, []);
  }

  lemma ReviewWellFormed()
    ensures CategoryWellFormed(REVIEW)
  {
    SuffixedWellFormed(REVIEW, []);
  }

  lemma RemindWellFormed()
    ensures CategoryWellFormed(REMIND)
  {
    SuffixedWellFormed(REMIND, ["product", "clients", "internal", "strategy"]);
  }

  lemma AiWellFormed()
    ensures CategoryWellFormed(AI)
  {
    SuffixedWellFormed(AI, ["openai", "anthropic", "google", "tools", "ethics", "research"]);
  }

  lemma TechWellFormed()
    ensures CategoryWellFormed(TECH)
  {
    SuffixedWellFormed(TECH, ["programming", "python", "javascript", "data", "cloud"]);
  }

  lemma BusinessWellFormed()
    ensures CategoryWellFormed(BUSINESS)
  {
    SuffixedWellFormed(BUSINESS, ["strategy", "management", "ethics", "leadership"]);
  }

  lemma MarketingWellFormed()
    ensures CategoryWellFormed(MARKETING)
  {
    SuffixedWellFormed(MARKETING, ["digital", "content", "analytics", "strategy"]);
  }

  lemma AnalyticsWellFormed()
    ensures CategoryWellFormed(ANALYTICS)
  {
    SuffixedWellFormed(ANALYTICS, ["data", "metrics", "reporting", "tools"]);
  }

  lemma DesignWellFormed()
    ensures CategoryWellFormed(DESIGN)
  {
    SuffixedWellFormed(DESIGN, ["ui", "ux", "graphic", "product", "thinking"]);
  }

  lemma PhilosophyWellFormed()
    ensures CategoryWellFormed(PHILOSOPHY)
  {
    SuffixedWellFormed(PHILOSOPHY, ["ethics", "logic", "mind"]);
  }

  lemma FirstNamesDistinct(first: seq<string>)
    requires first == ["concept", "tutorial", "project", "reference", "idea", "remind", "ai", "tech"]
    ensures Distinct(first)
  {
  }

  lemma SecondNamesDistinct(second: seq<string>)
    requires second == ["business", "marketing", "analytics", "design", "philosophy", "todo",
                        "inprogress", "completed", "review"]
    ensures Distinct(second)
  {
  }

  lemma NameHalvesDisjoint(first: seq<string>, second: seq<string>)
    requires first == ["concept", "tutorial", "project", "reference", "idea", "remind", "ai", "tech"]
    requires second == ["business", "marketing", "analytics", "design", "philosophy", "todo",
                        "inprogress", "completed", "review"]
    ensures forall x :: x in first ==> x !in second
  {
  }

  /** The names of the categories, in order. */
  function CategoryNames(h: seq<TagCategory>): (names: seq<string>)
    ensures |names| == |h| && forall i :: 0 <= i < |h| ==> names[i] == h[i].name
  {
    seq(|h|, i requires 0 <= i < |h| => h[i].name)
  }

  /** A category name is one `-`-piece, and it is the first piece of each of its
      subcategory names. */
  lemma {:induction false} ChildPieces(parent: string, child: string)
    requires '-' !in parent && ChildOf(parent, child)
    ensures Split(parent, '-') == [parent]
    ensures Split(child, '-')[0] == parent
    decreases |parent|
  {
    if parent == [] {
    } else {
      assert ChildOf(parent[1..], child[1..]);
      ChildPieces(parent[1..], child[1..]);
      assert parent == [parent[0]] + parent[1..];
    }
  }

  /** Each name of a well-formed category has the category name as its first
      `-`-piece. */
  lemma NamePieces(c: TagCategory)
    requires CategoryWellFormed(c)
    ensures Split(c.name, '-')[0] == c.name
    ensures forall y :: y in c.subcategories ==> Split(y, '-')[0] == c.name && '-' in y
  {
    forall y | y in c.subcategories ensures Split(y, '-')[0] == c.name && '-' in y {
      var j :| 0 <= j < |c.subcategories| && c.subcategories[j] == y;
      ChildPieces(c.name, y);
      assert y[|c.name|] == '-';
    }
    ChildPieces(c.name, c.name + "-");
  }

  /** A relevant subcategory has a relevant parent: the parent's only piece is
      the subcategory's first piece. */
  lemma SubcategoryImpliesParent(content: string, c: TagCategory, j: nat)
    requires CategoryWellFormed(c) && j < |c.subcategories|
    requires IsContentRelevant(content, c.subcategories[j])
    ensures IsContentRelevant(content, c.name)
  {
    ChildPieces(c.name, c.subcategories[j]);
    RelevantMonotone(content, c.subcategories[j], c.name);
  }

  // ---------------------------------------------------------------------------
  // The walk

  /** Every name of the taxonomy in definition order, each category followed by
      its subcategories. */
  function AllNames(h: seq<TagCategory>): seq<string>
    decreases |h|
  {
    if h == [] then []
    else AllNames(h[..|h| - 1]) + [h[|h| - 1].name] + h[|h| - 1].subcategories
  }

  /** The relevance test the walk applies to every name: `isContentRelevant`
      against the lower-cased content. */
  function Relevance(contentLower: string): string -> bool {
    tag => IsContentRelevant(contentLower, tag)
  }

  /** The names, in their order, that pass the relevance test. */
  function RelevantOnly(relevant: string -> bool, names: seq<string>): seq<string>
    decreases |names|
  {
    if names == [] then []
    else
      RelevantOnly(relevant, names[..|names| - 1]) +
      (if relevant(names[|names| - 1]) then [names[|names| - 1]] else [])
  }

  /** What one round of the outer loop pushes: the category, then its relevant
      subcategories, or nothing when the category is not relevant. */
  function CategoryTags(relevant: string -> bool, c: TagCategory): seq<string> {
    if relevant(c.name) then [c.name] + RelevantOnly(relevant, c.subcategories)
    else []
  }

  /** Everything the nested loops push, before the cap. */
  function Walk(relevant: string -> bool, h: seq<TagCategory>): seq<string>
    decreases |h|
  {
    if h == [] then [] else Walk(relevant, h[..|h| - 1]) + CategoryTags(relevant, h[|h| - 1])
  }

  /** `s.slice(0, n)`. */
  function Take(s: seq<string>, n: nat): (r: seq<string>)
    ensures |r| == if |s| <= n then |s| else n
    ensures r == s[..|r|]
  {
    if |s| <= n then s else s[..n]
  }

  /** What `analyzeAndTagContent` returns. */
  function Classify(content: string): seq<string> {
    Take(Walk(Relevance(ToLower(content)), TAG_HIERARCHY), MAX_TAGS)
  }

  /** One more round of the outer loop. */
  lemma WalkStep(relevant: string -> bool, h: seq<TagCategory>, i: nat)
    requires i < |h|
    ensures Walk(relevant, h[..i + 1]) == Walk(relevant, h[..i]) + CategoryTags(relevant, h[i])
  {
    assert h[..i + 1][..i] == h[..i];
  }

  /** One more round of the inner loop. */
  lemma RelevantOnlyStep(relevant: string -> bool, names: seq<string>, j: nat)
    requires j < |names|
    ensures RelevantOnly(relevant, names[..j + 1]) ==
            RelevantOnly(relevant, names[..j]) + (if relevant(names[j]) then [names[j]] else [])
  {
    assert names[..j + 1][..j] == names[..j];
  }

  lemma AppendAssoc(a: seq<string>, b: seq<string>, c: seq<string>)
    ensures a + b + c == a + (b + c)
  {
  }

  /** One round of the outer loop extends the walk of the categories before it. */
  lemma WalkRound(relevant: string -> bool, h: seq<TagCategory>, i: nat, before: seq<string>, after: seq<string>)
    requires i < |h| && before == Walk(relevant, h[..i])
    requires relevant(h[i].name) ==> after == before + ([h[i].name] + RelevantOnly(relevant, h[i].subcategories))
    requires !relevant(h[i].name) ==> after == before
    ensures after == Walk(relevant, h[..i + 1])
  {
    WalkStep(relevant, h, i);
    if !relevant(h[i].name) {
      assert after + [] == after;
    }
  }

  /** The inner loop of `analyzeAndTagContent`: push each relevant
      subcategory, in order, onto the tags found so far. */
  method PushRelevant(relevant: string -> bool, subcategories: seq<string>, found: seq<string>)
    returns (pushed: seq<string>)
    ensures pushed == found + RelevantOnly(relevant, subcategories)
  {
    pushed := found;
    var j := 0;
    while j < |subcategories|
      invariant 0 <= j <= |subcategories|
      invariant pushed == found + RelevantOnly(relevant, subcategories[..j])
    {
      var subcategory := subcategories[j];
      ghost var before := RelevantOnly(relevant, subcategories[..j]);
      RelevantOnlyStep(relevant, subcategories, j);
      if relevant(subcategory) {
        pushed := pushed + [subcategory];
        assert pushed == found + (before + [subcategory]);
      } else {
        assert before + [] == before;
      }
      j := j + 1;
    }
    assert subcategories[..j] == subcategories;
  }

  /** The outer loop of `analyzeAndTagContent` over a taxonomy: push each
      relevant category and then its relevant subcategories. */
  method WalkTaxonomy(relevant: string -> bool, hierarchy: seq<TagCategory>) returns (found: seq<string>)
    ensures found == Walk(relevant, hierarchy)
  {
    found := [];
    var i := 0;
    while i < |hierarchy|
      invariant 0 <= i <= |hierarchy|
      invariant found == Walk(relevant, hierarchy[..i])
    {
      var category := hierarchy[i];
      ghost var before := found;
      if relevant(category.name) {
        found := found + [category.name];
        found := PushRelevant(relevant, category.subcategories, found);
        AppendAssoc(before, [category.name], RelevantOnly(relevant, category.subcategories));
      }
      WalkRound(relevant, hierarchy, i, before, found);
      i := i + 1;
    }
    assert hierarchy[..i] == hierarchy;
  }

  /** `analyzeAndTagContent`: lower-case once, walk the taxonomy with the
      relevance test against the lower-cased text, keep the first `MAX_TAGS`
      tags. */
  method AnalyzeAndTagContent(content: string) returns (tags: seq<string>)
    ensures tags == Classify(content)
    ensures |tags| <= MAX_TAGS && Distinct(tags)
  {
    var contentLower := ToLower(content);
    var found := WalkTaxonomy(Relevance(contentLower), TAG_HIERARCHY);
    tags := if |found| <= MAX_TAGS then found else found[..MAX_TAGS];
    ClassifyDistinct(content);
  }

  // ---------------------------------------------------------------------------
  // Properties of the walk

  lemma {:induction false} RelevantOnlyAppend(relevant: string -> bool, a: seq<string>, b: seq<string>)
    ensures RelevantOnly(relevant, a + b) == RelevantOnly(relevant, a) + RelevantOnly(relevant, b)
    decreases |b|
  {
    if b != [] {
      var b' := b[..|b| - 1];
      assert (a + b)[..|a + b| - 1] == a + b';
      RelevantOnlyAppend(relevant, a, b');
    } else {
      assert a + b == a;
    }
  }

  /** The names kept are exactly the relevant ones. */
  lemma {:induction false} RelevantOnlyMembers(relevant: string -> bool, names: seq<string>)
    ensures forall x :: x in RelevantOnly(relevant, names) <==> x in names && relevant(x)
    decreases |names|
  {
    if names != [] {
      var init := names[..|names| - 1];
      RelevantOnlyMembers(relevant, init);
      assert names == init + [names[|names| - 1]];
    }
  }

  lemma {:induction false} RelevantOnlyDistinct(relevant: string -> bool, names: seq<string>)
    requires Distinct(names)
    ensures Distinct(RelevantOnly(relevant, names))
    decreases |names|
  {
    if names != [] {
      var init := names[..|names| - 1];
      var last := names[|names| - 1];
      RelevantOnlyDistinct(relevant, init);
      RelevantOnlyMembers(relevant, init);
      assert last !in init;
      var r := RelevantOnly(relevant, names);
      if relevant(last) {
        DistinctConcat(RelevantOnly(relevant, init), [last]);
      }
    }
  }

  lemma {:induction false} RelevantOnlyAll(relevant: string -> bool, names: seq<string>)
    requires forall i :: 0 <= i < |names| ==> relevant(names[i])
    ensures RelevantOnly(relevant, names) == names
    decreases |names|
  {
    if names != [] {
      var init := names[..|names| - 1];
      assert forall i :: 0 <= i < |init| ==> init[i] == names[i];
      RelevantOnlyAll(relevant, init);
      assert names == init + [names[|names| - 1]];
    }
  }

  lemma {:induction false} RelevantOnlyNone(relevant: string -> bool, names: seq<string>)
    requires forall x :: x in names ==> !relevant(x)
    ensures RelevantOnly(relevant, names) == []
    decreases |names|
  {
    if names != [] {
      RelevantOnlyNone(relevant, names[..|names| - 1]);
    }
  }

  lemma DistinctConcat(a: seq<string>, b: seq<string>)
    requires Distinct(a) && Distinct(b)
    requires forall x :: x in a ==> x !in b
    ensures Distinct(a + b)
  {
    var ab := a + b;
    forall i, j | 0 <= i < j < |ab| ensures ab[i] != ab[j] {
      if i < |a| && j >= |a| {
        assert ab[i] in a && ab[j] in b;
      } else if i >= |a| {
        assert ab[i] == b[i - |a|] && ab[j] == b[j - |a|];
      }
    }
  }

  lemma DistinctParts(a: seq<string>, b: seq<string>)
    requires Distinct(a + b)
    ensures Distinct(a) && Distinct(b)
    ensures forall x :: x in a ==> x !in b
  {
    var ab := a + b;
    forall i, j | 0 <= i < j < |a| ensures a[i] != a[j] {
      assert a[i] == ab[i] && a[j] == ab[j];
    }
    forall i, j | 0 <= i < j < |b| ensures b[i] != b[j] {
      assert b[i] == ab[|a| + i] && b[j] == ab[|a| + j];
    }
    forall x | x in a ensures x !in b {
      var i :| 0 <= i < |a| && a[i] == x;
      forall j | 0 <= j < |b| ensures b[j] != x {
        assert ab[i] == x && ab[|a| + j] == b[j];
      }
    }
  }

  /** The names of the taxonomy are its category names and subcategory names. */
  lemma {:induction false} AllNamesMembers(h: seq<TagCategory>)
    ensures forall x :: x in AllNames(h) <==>
            exists i :: 0 <= i < |h| && (x == h[i].name || x in h[i].subcategories)
    decreases |h|
  {
    if h != [] {
      var g := h[..|h| - 1];
      AllNamesMembers(g);
      forall x | x in AllNames(h)
        ensures exists i :: 0 <= i < |h| && (x == h[i].name || x in h[i].subcategories)
      {
        if x in AllNames(g) {
          var i :| 0 <= i < |g| && (x == g[i].name || x in g[i].subcategories);
          assert h[i] == g[i];
        } else {
          assert x == h[|h| - 1].name || x in h[|h| - 1].subcategories;
        }
      }
      forall x, i | 0 <= i < |h| && (x == h[i].name || x in h[i].subcategories)
        ensures x in AllNames(h)
      {
        if i < |g| {
          assert h[i] == g[i];
          assert x in AllNames(g);
        }
      }
    }
  }

  /** In a well-formed taxonomy all names, categories and subcategories alike,
      are distinct. */
  lemma {:induction false} AllNamesDistinct(h: seq<TagCategory>)
    requires TaxonomyWellFormed(h)
    ensures Distinct(AllNames(h))
    decreases |h|
  {
    if h != [] {
      var g := h[..|h| - 1];
      var c := h[|h| - 1];
      assert TaxonomyWellFormed(g) by {
        forall i | 0 <= i < |g| ensures CategoryWellFormed(g[i]) {
          assert g[i] == h[i];
        }
      }
      AllNamesDistinct(g);
      OwnNamesDistinct(c);
      assert h == g + [c];
      EarlierNamesApart(h, g, c);
      DistinctConcat(AllNames(g), [c.name] + c.subcategories);
      assert AllNames(h) == AllNames(g) + ([c.name] + c.subcategories);
    }
  }

  /** A well-formed category's own names are distinct: the subcategories are,
      and each holds a `-` that the category name lacks. */
  lemma OwnNamesDistinct(c: TagCategory)
    requires CategoryWellFormed(c)
    ensures Distinct([c.name] + c.subcategories)
  {
    var own := [c.name] + c.subcategories;
    NamePieces(c);
    forall i, j | 0 <= i < j < |own| ensures own[i] != own[j] {
      if i > 0 {
        assert own[i] == c.subcategories[i - 1] && own[j] == c.subcategories[j - 1];
      } else {
        assert own[j] in c.subcategories;
        assert '-' in own[j];
      }
    }
  }

  /** The names of the earlier categories differ from the last category's own
      names: their first `-`-pieces are distinct category names. */
  lemma EarlierNamesApart(h: seq<TagCategory>, g: seq<TagCategory>, c: TagCategory)
    requires TaxonomyWellFormed(h) && h == g + [c]
    ensures forall x :: x in AllNames(g) ==> x !in [c.name] + c.subcategories
  {
    var own := [c.name] + c.subcategories;
    AllNamesMembers(g);
    assert c == h[|h| - 1];
    assert CategoryWellFormed(c);
    NamePieces(c);
    assert forall y :: y in own ==> Split(y, '-')[0] == c.name;
    forall x | x in AllNames(g) ensures x !in own {
      var i :| 0 <= i < |g| && (x == g[i].name || x in g[i].subcategories);
      assert g[i] == h[i] && c == h[|h| - 1];
      assert CategoryWellFormed(h[i]);
      NamePieces(g[i]);
      assert Split(x, '-')[0] == g[i].name != c.name;
    }
  }

  /** A relevant subcategory of `c` always comes with a relevant `c`. */
  ghost predicate SubcategoriesNeedParent(relevant: string -> bool, c: TagCategory) {
    forall x :: x in c.subcategories && relevant(x) ==> relevant(c.name)
  }

  /** The test of `isContentRelevant` has that property for every well-formed
      category: a subcategory's pieces include its parent's only piece. */
  lemma RelevanceNeedsParent(contentLower: string, c: TagCategory)
    requires CategoryWellFormed(c)
    ensures SubcategoriesNeedParent(Relevance(contentLower), c)
  {
    forall x | x in c.subcategories && Relevance(contentLower)(x)
      ensures Relevance(contentLower)(c.name)
    {
      var j :| 0 <= j < |c.subcategories| && c.subcategories[j] == x;
      SubcategoryImpliesParent(contentLower, c, j);
    }
  }

  /** When subcategories need their parent, the walk's round keeps exactly the
      relevant names among the category and its subcategories. */
  lemma CategoryTagsAreRelevantNames(relevant: string -> bool, c: TagCategory)
    requires SubcategoriesNeedParent(relevant, c)
    ensures CategoryTags(relevant, c) == RelevantOnly(relevant, [c.name] + c.subcategories)
  {
    RelevantOnlyAppend(relevant, [c.name], c.subcategories);
    assert RelevantOnly(relevant, [c.name]) == if relevant(c.name) then [c.name] else [] by {
      assert [c.name][..0] == [];
    }
    if !relevant(c.name) {
      RelevantOnlyNone(relevant, c.subcategories);
    }
  }

  /** When every category's subcategories need their parent, the walk keeps
      exactly the relevant names of the taxonomy in definition order: skipping
      the subcategories of an irrelevant category loses nothing. */
  lemma {:induction false} WalkIsRelevantNames(relevant: string -> bool, h: seq<TagCategory>)
    requires forall i :: 0 <= i < |h| ==> SubcategoriesNeedParent(relevant, h[i])
    ensures Walk(relevant, h) == RelevantOnly(relevant, AllNames(h))
    decreases |h|
  {
    if h != [] {
      var g := h[..|h| - 1];
      var c := h[|h| - 1];
      assert forall i :: 0 <= i < |g| ==> g[i] == h[i];
      WalkIsRelevantNames(relevant, g);
      CategoryTagsAreRelevantNames(relevant, c);
      RelevantOnlyAppend(relevant, AllNames(g), [c.name] + c.subcategories);
      assert AllNames(h) == AllNames(g) + ([c.name] + c.subcategories);
    }
  }

  /** Everything the walk pushes is a name of the taxonomy. */
  lemma {:induction false} WalkWithinNames(relevant: string -> bool, h: seq<TagCategory>)
    ensures forall x :: x in Walk(relevant, h) ==> x in AllNames(h)
    decreases |h|
  {
    if h != [] {
      var g := h[..|h| - 1];
      WalkWithinNames(relevant, g);
      RelevantOnlyMembers(relevant, h[|h| - 1].subcategories);
    }
  }

  /** A subcategory in `r` comes after its parent category. */
  ghost predicate ParentFirst(r: seq<string>, h: seq<TagCategory>) {
    forall k, i :: 0 <= k < |r| && 0 <= i < |h| && r[k] in h[i].subcategories ==>
      exists m :: 0 <= m < k && r[m] == h[i].name
  }

  /** The walk pushes a subcategory only right after its parent was pushed, so
      with distinct names every subcategory it returns has its parent earlier. */
  lemma {:induction false} WalkParentFirst(relevant: string -> bool, h: seq<TagCategory>)
    requires Distinct(AllNames(h))
    ensures ParentFirst(Walk(relevant, h), h)
    decreases |h|
  {
    if h != [] {
      var g := h[..|h| - 1];
      var c := h[|h| - 1];
      var own := [c.name] + c.subcategories;
      assert AllNames(h) == AllNames(g) + own;
      DistinctParts(AllNames(g), own);
      WalkParentFirst(relevant, g);
      WalkWithinNames(relevant, g);
      AllNamesMembers(g);
      var wg := Walk(relevant, g);
      var s := CategoryTags(relevant, c);
      var w := Walk(relevant, h);
      assert w == wg + s;
      RelevantOnlyMembers(relevant, c.subcategories);
      forall k, i | 0 <= k < |w| && 0 <= i < |h| && w[k] in h[i].subcategories
        ensures exists m :: 0 <= m < k && w[m] == h[i].name
      {
        if i < |g| {
          assert h[i] == g[i];
          assert w[k] in AllNames(g);
          assert w[k] !in own;
          assert k < |wg|;
          var m :| 0 <= m < k && wg[m] == g[i].name;
          assert w[m] == wg[m];
        } else {
          assert w[k] in own;
          assert w[k] !in AllNames(g);
          assert k >= |wg|;
          assert s == [c.name] + RelevantOnly(relevant, c.subcategories);
          assert w[|wg|] == c.name;
          assert c.name !in c.subcategories by {
            assert own[0] == c.name && own[1..] == c.subcategories;
          }
          assert k != |wg|;
        }
      }
    }
  }

  // ---------------------------------------------------------------------------
  // Properties of the classifier

  /** The result is the first `MAX_TAGS` names of the taxonomy, in definition
      order, that are relevant to the lower-cased content. */
  lemma ClassifyIsFirstRelevantNames(content: string)
    ensures Classify(content) == Take(RelevantOnly(Relevance(ToLower(content)), AllNames(TAG_HIERARCHY)), MAX_TAGS)
  {
    var relevant := Relevance(ToLower(content));
    HierarchyWellFormed();
    forall i | 0 <= i < |TAG_HIERARCHY| ensures SubcategoriesNeedParent(relevant, TAG_HIERARCHY[i]) {
      RelevanceNeedsParent(ToLower(content), TAG_HIERARCHY[i]);
    }
    WalkIsRelevantNames(relevant, TAG_HIERARCHY);
  }

  /** At most `MAX_TAGS` tags, and exactly `MAX_TAGS` when more are relevant;
      a walk that fits under the cap is returned whole. */
  lemma ClassifyCapped(content: string)
    ensures |Classify(content)| <= MAX_TAGS
    ensures |Walk(Relevance(ToLower(content)), TAG_HIERARCHY)| >= MAX_TAGS ==> |Classify(content)| == MAX_TAGS
    ensures |Walk(Relevance(ToLower(content)), TAG_HIERARCHY)| <= MAX_TAGS ==>
            Classify(content) == Walk(Relevance(ToLower(content)), TAG_HIERARCHY)
    ensures Classify(content) == Walk(Relevance(ToLower(content)), TAG_HIERARCHY)[..|Classify(content)|]
  {
  }

  /** Every tag returned is a taxonomy name relevant to the lower-cased content. */
  lemma ClassifyMembers(content: string)
    ensures forall x :: x in Classify(content) ==> x in AllNames(TAG_HIERARCHY) && IsContentRelevant(ToLower(content), x)
  {
    var relevant := Relevance(ToLower(content));
    var kept := RelevantOnly(relevant, AllNames(TAG_HIERARCHY));
    ClassifyIsFirstRelevantNames(content);
    RelevantOnlyMembers(relevant, AllNames(TAG_HIERARCHY));
    forall x | x in Classify(content)
      ensures x in AllNames(TAG_HIERARCHY) && IsContentRelevant(ToLower(content), x)
    {
      assert x in kept;
      assert relevant(x);
    }
  }

  /** No tag is returned twice. */
  lemma ClassifyDistinct(content: string)
    ensures Distinct(Classify(content))
  {
    HierarchyWellFormed();
    AllNamesDistinct(TAG_HIERARCHY);
    ClassifyIsFirstRelevantNames(content);
    RelevantOnlyDistinct(Relevance(ToLower(content)), AllNames(TAG_HIERARCHY));
  }

  /** Every subcategory returned has its parent category earlier in the result. */
  lemma ClassifyParentFirst(content: string)
    ensures ParentFirst(Classify(content), TAG_HIERARCHY)
  {
    HierarchyWellFormed();
    AllNamesDistinct(TAG_HIERARCHY);
    var w := Walk(Relevance(ToLower(content)), TAG_HIERARCHY);
    WalkParentFirst(Relevance(ToLower(content)), TAG_HIERARCHY);
    var r := Classify(content);
    forall k, i | 0 <= k < |r| && 0 <= i < |TAG_HIERARCHY| && r[k] in TAG_HIERARCHY[i].subcategories
      ensures exists m :: 0 <= m < k && r[m] == TAG_HIERARCHY[i].name
    {
      assert r[k] == w[k];
      var m :| 0 <= m < k && w[m] == TAG_HIERARCHY[i].name;
      assert r[m] == w[m];
    }
  }

  /** On empty content, or content that starts or ends with whitespace, the
      word list holds `""`, which every piece contains: every tag is relevant
      and the result is the first seven names of the taxonomy. */
  lemma ClassifyWhitespaceEdge(content: string)
    requires content == [] || IsWs(content[0]) || IsWs(content[|content| - 1])
    ensures Classify(content) ==
            ["concept", "tutorial", "project", "reference", "idea", "remind", "remind-product"]
  {
    var lower := ToLower(content);
    if content != [] {
      LowerKeepsWs(content[0]);
      LowerKeepsWs(content[|content| - 1]);
    }
    EmptyFieldIff(lower);
    var names := AllNames(TAG_HIERARCHY);
    forall i | 0 <= i < |names| ensures Relevance(lower)(names[i]) {
      EmptyWordRelevant(lower, names[i]);
    }
    RelevantOnlyAll(Relevance(lower), AllNames(TAG_HIERARCHY));
    ClassifyIsFirstRelevantNames(content);
    FirstSevenNames();
  }

  /** The first seven names of the taxonomy. */
  lemma FirstSevenNames()
    ensures Take(AllNames(TAG_HIERARCHY), MAX_TAGS) ==
            ["concept", "tutorial", "project", "reference", "idea", "remind", "remind-product"]
  {
    var h := TAG_HIERARCHY;
    var g := [CONCEPT, TUTORIAL, PROJECT, REFERENCE, IDEA, REMIND];
    assert h[..6] == g;
    AllNamesPrefix(h, 6);
    LeadingNames(g);
    assert AllNames(h)[..7] == AllNames(g)[..7];
  }

  lemma LeadingNames(g: seq<TagCategory>)
    requires g == [CONCEPT, TUTORIAL, PROJECT, REFERENCE, IDEA, REMIND]
    ensures |AllNames(g)| == 10
    ensures AllNames(g)[..7] ==
            ["concept", "tutorial", "project", "reference", "idea", "remind", "remind-product"]
  {
    assert CONCEPT.subcategories == [] && TUTORIAL.subcategories == [] && PROJECT.subcategories == [];
    assert REFERENCE.subcategories == [] && IDEA.subcategories == [];
    assert |REMIND.subcategories| == 4 && REMIND.subcategories[0] == "remind-product";
    AllNamesSnoc([], CONCEPT);
    assert [] + [CONCEPT] == g[..1];
    AllNamesSnoc(g[..1], TUTORIAL);
    assert g[..1] + [TUTORIAL] == g[..2];
    AllNamesSnoc(g[..2], PROJECT);
    assert g[..2] + [PROJECT] == g[..3];
    AllNamesSnoc(g[..3], REFERENCE);
    assert g[..3] + [REFERENCE] == g[..4];
    AllNamesSnoc(g[..4], IDEA);
    assert g[..4] + [IDEA] == g[..5];
    AllNamesSnoc(g[..5], REMIND);
    assert g[..5] + [REMIND] == g;
    assert AllNames(g) == ["concept", "tutorial", "project", "reference", "idea", "remind"] + REMIND.subcategories;
  }

  lemma AllNamesSnoc(g: seq<TagCategory>, c: TagCategory)
    ensures AllNames(g + [c]) == AllNames(g) + [c.name] + c.subcategories
  {
    assert (g + [c])[..|g|] == g;
  }

  /** The names of a leading part of the taxonomy lead its names. */
  lemma {:induction false} AllNamesPrefix(h: seq<TagCategory>, n: nat)
    requires n <= |h|
    ensures AllNames(h[..n]) <= AllNames(h)
    decreases |h|
  {
    if n < |h| {
      var g := h[..|h| - 1];
      assert g[..n] == h[..n];
      AllNamesPrefix(g, n);
    } else {
      assert h[..n] == h;
    }
  }

  /** Every tag the classifier returns is a plain name. */
  lemma ClassifyPlain(content: string)
    ensures forall x :: x in Classify(content) ==> PlainName(x)
  {
    ClassifyMembers(content);
    AllNamesMembers(TAG_HIERARCHY);
    HierarchyWellFormed();
  }

  // ---------------------------------------------------------------------------
  // The frontmatter formatter

  /** `tags.map(tag => `#${tag}`)`. */
  function Hashed(tags: seq<string>): (r: seq<string>)
    ensures |r| == |tags|
    ensures forall i :: 0 <= i < |tags| ==> r[i] == "#" + tags[i]
  {
    seq(|tags|, i requires 0 <= i < |tags| => "#" + tags[i])
  }

  /** `formatTagsForFrontmatter`: each tag prefixed with `#`, joined by spaces. */
  function FormatTagsForFrontmatter(tags: seq<string>): string {
    Join(Hashed(tags), " ")
  }

  /** The formatted text is empty exactly when there are no tags. */
  lemma FormatEmptyIff(tags: seq<string>)
    ensures FormatTagsForFrontmatter(tags) == "" <==> tags == []
  {
    if |tags| >= 2 {
      assert |FormatTagsForFrontmatter(tags)| >= |Hashed(tags)[0]|;
    }
  }

  /** Splitting the formatted text on spaces gives back the `#`-prefixed tags,
      when no tag holds a space. */
  lemma FormatRoundTrip(tags: seq<string>)
    requires tags != []
    requires forall i :: 0 <= i < |tags| ==> ' ' !in tags[i]
    ensures Split(FormatTagsForFrontmatter(tags), ' ') == Hashed(tags)
  {
    var hs := Hashed(tags);
    forall k | 0 <= k < |hs| ensures ' ' !in hs[k] {
      assert hs[k] == "#" + tags[k];
    }
    SplitJoin(hs, ' ');
  }

  /** The formatted text holds only `#`, spaces and characters of the tags. */
  lemma {:induction false} FormatChars(tags: seq<string>)
    ensures forall c :: c in FormatTagsForFrontmatter(tags) ==>
            c == '#' || c == ' ' || exists i :: 0 <= i < |tags| && c in tags[i]
    decreases |tags|
  {
    if |tags| >= 2 {
      var rest := tags[1..];
      FormatChars(rest);
      assert Hashed(tags)[1..] == Hashed(rest);
      assert FormatTagsForFrontmatter(tags) == "#" + tags[0] + " " + FormatTagsForFrontmatter(rest);
      forall c | c in FormatTagsForFrontmatter(tags)
        ensures c == '#' || c == ' ' || exists i :: 0 <= i < |tags| && c in tags[i]
      {
        if c in FormatTagsForFrontmatter(rest) && c != '#' && c != ' ' {
          var i :| 0 <= i < |rest| && c in rest[i];
          assert c in tags[i + 1];
        } else if c in tags[0] {
          assert c in tags[0];
        }
      }
    } else if |tags| == 1 {
      assert FormatTagsForFrontmatter(tags) == "#" + tags[0];
    }
  }

  /** The formatted classifier output holds no `$` and no line terminator, so
      it is inserted literally and stays on one line. */
  lemma FormattedClassifyIsOneLine(content: string)
    ensures '$' !in FormatTagsForFrontmatter(Classify(content))
    ensures forall k :: 0 <= k < |FormatTagsForFrontmatter(Classify(content))| ==>
            !IsLineTerminator(FormatTagsForFrontmatter(Classify(content))[k])
  {
    var tags := Classify(content);
    var f := FormatTagsForFrontmatter(tags);
    ClassifyPlain(content);
    FormatChars(tags);
    forall k | 0 <= k < |f| ensures f[k] != '$' && !IsLineTerminator(f[k]) {
      assert f[k] in f;
      if f[k] != '#' && f[k] != ' ' {
        var i :| 0 <= i < |tags| && f[k] in tags[i];
        assert PlainName(tags[i]);
      }
    }
  }
}
