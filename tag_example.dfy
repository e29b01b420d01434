/** The classification of one sentence worked out in full: what
    `analyzeAndTagContent` returns for "I love programming in python and
    javascript". The one-letter word `i` lies inside every tag name that has an
    `i`, so the cap of seven is reached inside the `ai` category and `tech` is
    never returned. */
module TagExample {
  import opened Text
  import opened TagManager

  /** The words of the sentence, lower-cased. */
  const WORDS: seq<string> := ["i", "love", "programming", "in", "python", "and", "javascript"]

  /** "i love programming in python and javascript". */
  const LOWER: string := Join(WORDS, " ")

  /** "I love programming in python and javascript". */
  const SENTENCE: string := "I" + LOWER[1..]

  // ---------------------------------------------------------------------------
  // Lower-casing and splitting the sentence

  lemma ToLowerConcat(a: string, b: string)
    ensures ToLower(a + b) == ToLower(a) + ToLower(b)
  {
    var l, r := ToLower(a + b), ToLower(a) + ToLower(b);
    forall k | 0 <= k < |l| ensures l[k] == r[k] {
      if k < |a| {
        assert (a + b)[k] == a[k];
      } else {
        assert (a + b)[k] == b[k - |a|];
      }
    }
  }

  /** A text without ASCII capitals is its own lower case. */
  lemma ToLowerFixed(s: string)
    requires forall c :: c in s ==> !('A' <= c <= 'Z')
    ensures ToLower(s) == s
  {
    forall k | 0 <= k < |s| ensures ToLower(s)[k] == s[k] {
      assert s[k] in s;
    }
  }

  /** Every character of a join is one of the separator's or one of a
      word's. */
  lemma {:induction false} JoinChars(ws: seq<string>, sep: string)
    ensures forall c :: c in Join(ws, sep) ==> c in sep || exists w :: w in ws && c in w
    decreases |ws|
  {
    if |ws| > 1 {
      JoinChars(ws[1..], sep);
      forall c | c in Join(ws, sep) ensures c in sep || exists w :: w in ws && c in w {
        if c !in ws[0] && c !in sep {
          assert c in Join(ws[1..], sep);
          var w :| w in ws[1..] && c in w;
          assert w in ws;
        }
      }
    } else if |ws| == 1 {
      forall c | c in Join(ws, sep) ensures exists w :: w in ws && c in w {
        assert ws[0] in ws;
      }
    }
  }

  lemma LowerStartsWithI()
    ensures |LOWER| > 1 && LOWER[0] == 'i'
  {
    assert LOWER == "i" + " " + Join(WORDS[1..], " ");
  }

  /** The words of the sentence are made of lower-case letters. */
  lemma WordsPlain()
    ensures forall w :: w in WORDS ==> forall c :: c in w ==> 'a' <= c <= 'z'
  {
  }

  lemma SentenceLower()
    ensures ToLower(SENTENCE) == LOWER
  {
    LowerStartsWithI();
    JoinChars(WORDS, " ");
    var rest := LOWER[1..];
    WordsPlain();
    forall c | c in rest ensures !('A' <= c <= 'Z') {
      assert c in LOWER;
      if c != ' ' {
        var w :| w in WORDS && c in w;
      }
    }
    ToLowerFixed(rest);
    ToLowerConcat("I", rest);
    assert ToLower("I") == "i";
    assert LOWER == [LOWER[0]] + rest;
  }

  /** A word without whitespace splits into itself. */
  lemma {:induction false} SplitWsWord(w: string)
    requires w != [] && forall c :: c in w ==> !IsWs(c)
    ensures SplitWs(w) == [w]
    decreases |w|
  {
    assert w[0] in w;
    if |w| == 1 {
      assert w[1..] == [];
      SplitWsUnfoldNoWs(w);
      assert w == [w[0]] + w[1..];
    } else {
      assert w[1..][0] in w;
      assert forall c :: c in w[1..] ==> c in w;
      SplitWsWord(w[1..]);
      SplitWsUnfoldNoWs(w);
      assert w == [w[0]] + w[1..];
    }
  }

  /** A word, one space and a text starting with a word split into the word
      and the fields of the text. */
  lemma {:induction false} SplitWsWordThen(w: string, s: string)
    requires w != [] && forall c :: c in w ==> !IsWs(c)
    requires s != [] && !IsWs(s[0])
    ensures SplitWs(w + " " + s) == [w] + SplitWs(s)
    decreases |w|
  {
    var x := w + " " + s;
    assert x[0] == w[0] && w[0] in w;
    var r, t := SplitWs(x), SplitWs(x[1..]);
    SplitWsUnfoldNoWs(x);
    assert r == [r[0]] + r[1..];
    if |w| == 1 {
      SpaceThen(s);
      assert x[1..] == " " + s;
      assert r[0] == w;
    } else {
      var v := w[1..];
      assert forall c :: c in v ==> c in w;
      assert x[1..] == v + " " + s;
      SplitWsWordThen(v, s);
      assert r[0] == [w[0]] + v == w;
    }
  }

  /** A single space before a word is a field separator. */
  lemma SpaceThen(s: string)
    requires s != [] && !IsWs(s[0])
    ensures SplitWs(" " + s) == [""] + SplitWs(s)
  {
    SplitWsUnfoldWs(" " + s);
    assert (" " + s)[1..] == s;
    assert TrimStartWs(" " + s) == TrimStartWs(s);
  }

  /** Non-empty words without whitespace, joined by single spaces, split back
      into the words. */
  lemma {:induction false} JoinSpaceSplits(ws: seq<string>)
    requires |ws| >= 1
    requires forall w :: w in ws ==> w != [] && forall c :: c in w ==> !IsWs(c)
    ensures SplitWs(Join(ws, " ")) == ws
    decreases |ws|
  {
    assert ws[0] in ws;
    if |ws| == 1 {
      SplitWsWord(ws[0]);
    } else {
      var tail := ws[1..];
      assert forall w :: w in tail ==> w in ws;
      JoinSpaceSplits(tail);
      assert tail[0] in ws;
      JoinStarts(tail, " ");
      SplitWsWordThen(ws[0], Join(tail, " "));
      assert ws == [ws[0]] + tail;
    }
  }

  /** A join starts with the first character of its first word. */
  lemma JoinStarts(ws: seq<string>, sep: string)
    requires |ws| >= 1 && ws[0] != []
    ensures Join(ws, sep) != [] && Join(ws, sep)[0] == ws[0][0]
  {
  }

  lemma SentenceWords()
    ensures SplitWs(LOWER) == WORDS
  {
    JoinSpaceSplits(WORDS);
  }

  // ---------------------------------------------------------------------------
  // Relevance of the names the walk meets first

  lemma CharIncluded(s: string, c: char)
    requires c in s
    ensures Includes(s, [c])
  {
    var i :| 0 <= i < |s| && s[i] == c;
    assert s[i..i + 1] == [c];
    assert OccursAt(s, [c], i);
  }

  /** A text that lacks a character of `w` does not include `w`. */
  lemma CharMissing(s: string, w: string, c: char)
    requires c in w && c !in s
    ensures !Includes(s, w)
  {
    var k :| 0 <= k < |w| && w[k] == c;
    forall i | 0 <= i <= |s| - |w| ensures !OccursAt(s, w, i) {
      assert s[i + k] in s;
      assert s[i..i + |w|][k] == s[i + k];
    }
  }

  /** Neither of two words includes the other when each has a character the
      other lacks. */
  lemma Apart(w: string, p: string, a: char, b: char)
    requires a in w && a !in p && b in p && b !in w
    ensures !Overlaps(w, p)
  {
    CharMissing(w, p, b);
    CharMissing(p, w, a);
  }

  /** A tag whose pieces all hold an `i` overlaps the word `i`. */
  lemma RelevantByI(lower: string, tag: string, pieces: seq<string>)
    requires SplitWs(lower) == WORDS
    requires Split(tag, '-') == pieces
    requires forall k :: 0 <= k < |pieces| ==> 'i' in pieces[k]
    ensures IsContentRelevant(lower, tag)
  {
    RelevantIff(lower, tag);
    assert "i" in WORDS;
    forall p | p in pieces ensures exists w :: w in WORDS && Overlaps(w, p) {
      CharIncluded(p, 'i');
      assert Overlaps("i", p);
    }
  }

  /** A tag with a piece that overlaps no word is not relevant. */
  lemma IrrelevantBy(lower: string, tag: string, piece: string)
    requires SplitWs(lower) == WORDS
    requires piece in Split(tag, '-')
    requires forall w :: w in WORDS ==> !Overlaps(w, piece)
    ensures !IsContentRelevant(lower, tag)
  {
    RelevantIff(lower, tag);
  }

  lemma ConceptApart(p: string)
    requires p == "concept"
    ensures forall w :: w in WORDS ==> !Overlaps(w, p)
  {
    assert !Overlaps("i", p) by { Apart("i", p, 'i', 'c'); }
    assert !Overlaps("love", p) by { Apart("love", p, 'l', 'c'); }
    assert !Overlaps("programming", p) by { Apart("programming", p, 'r', 'c'); }
    assert !Overlaps("in", p) by { Apart("in", p, 'i', 'c'); }
    assert !Overlaps("python", p) by { Apart("python", p, 'y', 'c'); }
    assert !Overlaps("and", p) by { Apart("and", p, 'a', 'c'); }
    assert !Overlaps("javascript", p) by { Apart("javascript", p, 'j', 'o'); }
  }

  lemma ProjectApart(p: string)
    requires p == "project"
    ensures forall w :: w in WORDS ==> !Overlaps(w, p)
  {
    assert !Overlaps("i", p) by { Apart("i", p, 'i', 'p'); }
    assert !Overlaps("love", p) by { Apart("love", p, 'l', 'p'); }
    assert !Overlaps("programming", p) by { Apart("programming", p, 'g', 'j'); }
    assert !Overlaps("in", p) by { Apart("in", p, 'i', 'p'); }
    assert !Overlaps("python", p) by { Apart("python", p, 'y', 'r'); }
    assert !Overlaps("and", p) by { Apart("and", p, 'a', 'p'); }
    assert !Overlaps("javascript", p) by { Apart("javascript", p, 'a', 'o'); }
  }

  lemma ReferenceApart(p: string)
    requires p == "reference"
    ensures forall w :: w in WORDS ==> !Overlaps(w, p)
  {
    assert !Overlaps("i", p) by { Apart("i", p, 'i', 'f'); }
    assert !Overlaps("love", p) by { Apart("love", p, 'l', 'f'); }
    assert !Overlaps("programming", p) by { Apart("programming", p, 'p', 'f'); }
    assert !Overlaps("in", p) by { Apart("in", p, 'i', 'f'); }
    assert !Overlaps("python", p) by { Apart("python", p, 'p', 'f'); }
    assert !Overlaps("and", p) by { Apart("and", p, 'a', 'f'); }
    assert !Overlaps("javascript", p) by { Apart("javascript", p, 'j', 'f'); }
  }

  lemma ProductApart(p: string)
    requires p == "product"
    ensures forall w :: w in WORDS ==> !Overlaps(w, p)
  {
    assert !Overlaps("i", p) by { Apart("i", p, 'i', 'u'); }
    assert !Overlaps("love", p) by { Apart("love", p, 'l', 'u'); }
    assert !Overlaps("programming", p) by { Apart("programming", p, 'g', 'u'); }
    assert !Overlaps("in", p) by { Apart("in", p, 'i', 'u'); }
    assert !Overlaps("python", p) by { Apart("python", p, 'y', 'u'); }
    assert !Overlaps("and", p) by { Apart("and", p, 'a', 'u'); }
    assert !Overlaps("javascript", p) by { Apart("javascript", p, 'j', 'u'); }
  }

  lemma StrategyApart(p: string)
    requires p == "strategy"
    ensures forall w :: w in WORDS ==> !Overlaps(w, p)
  {
    assert !Overlaps("i", p) by { Apart("i", p, 'i', 's'); }
    assert !Overlaps("love", p) by { Apart("love", p, 'l', 's'); }
    assert !Overlaps("programming", p) by { Apart("programming", p, 'p', 's'); }
    assert !Overlaps("in", p) by { Apart("in", p, 'i', 's'); }
    assert !Overlaps("python", p) by { Apart("python", p, 'p', 's'); }
    assert !Overlaps("and", p) by { Apart("and", p, 'n', 's'); }
    assert !Overlaps("javascript", p) by { Apart("javascript", p, 'j', 'y'); }
  }

  /** `split('-')` of a name without `-`. */
  lemma OnePiece(name: string)
    requires '-' !in name
    ensures Split(name, '-') == [name]
  {
    SplitJoin([name], '-');
  }

  /** `split('-')` of `parent-child`. */
  lemma TwoPieces(tag: string, parent: string, child: string)
    requires '-' !in parent && '-' !in child && tag == parent + "-" + child
    ensures Split(tag, '-') == [parent, child]
  {
    assert Join([parent, child], "-") == tag;
    SplitJoin([parent, child], '-');
  }

  /** A one-piece tag that overlaps no word of the sentence is not relevant. */
  lemma PlainIrrelevant(lower: string, tag: string)
    requires SplitWs(lower) == WORDS
    requires '-' !in tag
    requires forall w :: w in WORDS ==> !Overlaps(w, tag)
    ensures !IsContentRelevant(lower, tag)
  {
    OnePiece(tag);
    IrrelevantBy(lower, tag, tag);
  }

  /** A one-piece tag holding an `i` is relevant to the sentence. */
  lemma PlainRelevant(lower: string, tag: string)
    requires SplitWs(lower) == WORDS
    requires '-' !in tag && 'i' in tag
    ensures IsContentRelevant(lower, tag)
  {
    OnePiece(tag);
    RelevantByI(lower, tag, [tag]);
  }

  /** A subcategory whose second piece overlaps no word is not relevant. */
  lemma ChildIrrelevant(lower: string, tag: string, parent: string, child: string)
    requires SplitWs(lower) == WORDS
    requires '-' !in parent && '-' !in child && tag == parent + "-" + child
    requires forall w :: w in WORDS ==> !Overlaps(w, child)
    ensures !IsContentRelevant(lower, tag)
  {
    TwoPieces(tag, parent, child);
    IrrelevantBy(lower, tag, child);
  }

  /** A subcategory whose two pieces both hold an `i` is relevant. */
  lemma ChildRelevant(lower: string, tag: string, parent: string, child: string)
    requires SplitWs(lower) == WORDS
    requires '-' !in parent && '-' !in child && tag == parent + "-" + child
    requires 'i' in parent && 'i' in child
    ensures IsContentRelevant(lower, tag)
  {
    TwoPieces(tag, parent, child);
    RelevantByI(lower, tag, [parent, child]);
  }

  // The verdicts on the twelve names the walk meets before the cap. Each takes
  // the name as a parameter equal to its literal, so that the relevance test
  // is not evaluated on the literal itself.

  lemma ConceptIrrelevant(lower: string, tag: string)
    requires SplitWs(lower) == WORDS && tag == "concept"
    ensures !IsContentRelevant(lower, tag)
  {
    ConceptApart(tag);
    PlainIrrelevant(lower, tag);
  }

  lemma TutorialRelevant(lower: string, tag: string)
    requires SplitWs(lower) == WORDS && tag == "tutorial"
    ensures IsContentRelevant(lower, tag)
  {
    PlainRelevant(lower, tag);
  }

  lemma ProjectIrrelevant(lower: string, tag: string)
    requires SplitWs(lower) == WORDS && tag == "project"
    ensures !IsContentRelevant(lower, tag)
  {
    ProjectApart(tag);
    PlainIrrelevant(lower, tag);
  }

  lemma ReferenceIrrelevant(lower: string, tag: string)
    requires SplitWs(lower) == WORDS && tag == "reference"
    ensures !IsContentRelevant(lower, tag)
  {
    ReferenceApart(tag);
    PlainIrrelevant(lower, tag);
  }

  lemma IdeaRelevant(lower: string, tag: string)
    requires SplitWs(lower) == WORDS && tag == "idea"
    ensures IsContentRelevant(lower, tag)
  {
    PlainRelevant(lower, tag);
  }

  lemma RemindRelevant(lower: string, tag: string)
    requires SplitWs(lower) == WORDS && tag == "remind"
    ensures IsContentRelevant(lower, tag)
  {
    PlainRelevant(lower, tag);
  }

  lemma AiRelevant(lower: string, tag: string)
    requires SplitWs(lower) == WORDS && tag == "ai"
    ensures IsContentRelevant(lower, tag)
  {
    PlainRelevant(lower, tag);
  }

  lemma RemindProductIrrelevant(lower: string, tag: string)
    requires SplitWs(lower) == WORDS && tag == "remind-product"
    ensures !IsContentRelevant(lower, tag)
  {
    ProductApart("product");
    ChildIrrelevant(lower, tag, "remind", "product");
  }

  lemma RemindClientsRelevant(lower: string, tag: string)
    requires SplitWs(lower) == WORDS && tag == "remind-clients"
    ensures IsContentRelevant(lower, tag)
  {
    ChildRelevant(lower, tag, "remind", "clients");
  }

  lemma RemindInternalRelevant(lower: string, tag: string)
    requires SplitWs(lower) == WORDS && tag == "remind-internal"
    ensures IsContentRelevant(lower, tag)
  {
    ChildRelevant(lower, tag, "remind", "internal");
  }

  lemma RemindStrategyIrrelevant(lower: string, tag: string)
    requires SplitWs(lower) == WORDS && tag == "remind-strategy"
    ensures !IsContentRelevant(lower, tag)
  {
    StrategyApart("strategy");
    ChildIrrelevant(lower, tag, "remind", "strategy");
  }

  lemma AiOpenaiRelevant(lower: string, tag: string)
    requires SplitWs(lower) == WORDS && tag == "ai-openai"
    ensures IsContentRelevant(lower, tag)
  {
    ChildRelevant(lower, tag, "ai", "openai");
  }

  // ---------------------------------------------------------------------------
  // The walk over the first seven categories

  /** The verdicts the walk needs for the sentence. */
  predicate SentenceVerdicts(relevant: string -> bool) {
    && !relevant("concept") && relevant("tutorial") && !relevant("project") && !relevant("reference")
    && relevant("idea") && relevant("remind") && relevant("ai")
    && !relevant("remind-product") && relevant("remind-clients") && relevant("remind-internal")
    && !relevant("remind-strategy") && relevant("ai-openai")
  }

  /** The relevance test of the sentence gives those verdicts. */
  lemma Verdicts(lower: string)
    requires SplitWs(lower) == WORDS
    ensures SentenceVerdicts(Relevance(lower))
  {
    ConceptIrrelevant(lower, "concept");
    TutorialRelevant(lower, "tutorial");
    ProjectIrrelevant(lower, "project");
    ReferenceIrrelevant(lower, "reference");
    IdeaRelevant(lower, "idea");
    RemindRelevant(lower, "remind");
    AiRelevant(lower, "ai");
    RemindProductIrrelevant(lower, "remind-product");
    RemindClientsRelevant(lower, "remind-clients");
    RemindInternalRelevant(lower, "remind-internal");
    RemindStrategyIrrelevant(lower, "remind-strategy");
    AiOpenaiRelevant(lower, "ai-openai");
  }

  /** The walk over a prefix of the taxonomy is a prefix of the whole walk. */
  lemma {:induction false} WalkPrefix(relevant: string -> bool, h: seq<TagCategory>, n: nat)
    requires n <= |h|
    ensures Walk(relevant, h[..n]) <= Walk(relevant, h)
    decreases |h|
  {
    if n < |h| {
      var g := h[..|h| - 1];
      assert g[..n] == h[..n];
      WalkPrefix(relevant, g, n);
    } else {
      assert h[..n] == h;
    }
  }

  lemma RemindSubcategories(relevant: string -> bool)
    requires SentenceVerdicts(relevant)
    ensures RelevantOnly(relevant, REMIND.subcategories) == ["remind-clients", "remind-internal"]
  {
    var s := REMIND.subcategories;
    RelevantOnlyStep(relevant, s, 0);
    assert s[..0] == [];
    RelevantOnlyStep(relevant, s, 1);
    RelevantOnlyStep(relevant, s, 2);
    RelevantOnlyStep(relevant, s, 3);
    assert s[..4] == s;
  }

  lemma AiSubcategories(relevant: string -> bool)
    requires SentenceVerdicts(relevant)
    ensures |RelevantOnly(relevant, AI.subcategories)| >= 1
    ensures RelevantOnly(relevant, AI.subcategories)[0] == "ai-openai"
  {
    var s := AI.subcategories;
    assert s == s[..1] + s[1..];
    RelevantOnlyAppend(relevant, s[..1], s[1..]);
    assert s[..1] == ["ai-openai"];
    assert RelevantOnly(relevant, ["ai-openai"]) == ["ai-openai"] by {
      assert ["ai-openai"][..0] == [];
    }
  }

  /** The walk over the first four categories keeps only `tutorial`. */
  lemma FirstFourCategories(relevant: string -> bool, h: seq<TagCategory>)
    requires SentenceVerdicts(relevant)
    requires 4 <= |h| && h[0] == CONCEPT && h[1] == TUTORIAL && h[2] == PROJECT && h[3] == REFERENCE
    ensures Walk(relevant, h[..4]) == ["tutorial"]
  {
    assert Walk(relevant, h[..1]) == [] by {
      WalkStep(relevant, h, 0);
      assert h[..0] == [];
    }
    assert Walk(relevant, h[..2]) == ["tutorial"] by {
      WalkStep(relevant, h, 1);
      assert RelevantOnly(relevant, []) == [];
    }
    WalkStep(relevant, h, 2);
    WalkStep(relevant, h, 3);
  }

  /** The walk over the first six categories: `idea`, then `remind` with two
      of its subcategories, follow `tutorial`. */
  lemma FirstSixCategories(relevant: string -> bool, h: seq<TagCategory>)
    requires SentenceVerdicts(relevant)
    requires 6 <= |h| && h[0] == CONCEPT && h[1] == TUTORIAL && h[2] == PROJECT && h[3] == REFERENCE
    requires h[4] == IDEA && h[5] == REMIND
    ensures Walk(relevant, h[..6]) == ["tutorial", "idea", "remind", "remind-clients", "remind-internal"]
  {
    assert Walk(relevant, h[..5]) == ["tutorial", "idea"] by {
      FirstFourCategories(relevant, h);
      WalkStep(relevant, h, 4);
      assert RelevantOnly(relevant, []) == [];
    }
    assert CategoryTags(relevant, h[5]) == ["remind", "remind-clients", "remind-internal"] by {
      RemindSubcategories(relevant);
    }
    WalkStep(relevant, h, 5);
  }

  /** The seven categories the taxonomy starts with. */
  predicate StartsLikeTaxonomy(h: seq<TagCategory>) {
    && 7 <= |h| && h[0] == CONCEPT && h[1] == TUTORIAL && h[2] == PROJECT && h[3] == REFERENCE
    && h[4] == IDEA && h[5] == REMIND && h[6] == AI
  }

  lemma TaxonomyStart()
    ensures StartsLikeTaxonomy(TAG_HIERARCHY)
  {
  }

  lemma FirstSevenCategories(relevant: string -> bool, h: seq<TagCategory>)
    requires SentenceVerdicts(relevant) && StartsLikeTaxonomy(h)
    ensures Walk(relevant, h[..7]) ==
            ["tutorial", "idea", "remind", "remind-clients", "remind-internal", "ai"] +
            RelevantOnly(relevant, AI.subcategories)
  {
    var six := ["tutorial", "idea", "remind", "remind-clients", "remind-internal"];
    var r := RelevantOnly(relevant, AI.subcategories);
    assert Walk(relevant, h[..7]) == six + (["ai"] + r) by {
      FirstSixCategories(relevant, h);
      WalkStep(relevant, h, 6);
    }
    AppendAssoc(six, ["ai"], r);
    assert six + ["ai"] == ["tutorial", "idea", "remind", "remind-clients", "remind-internal", "ai"];
  }

  /** With those verdicts the capped walk is the first seven relevant names. */
  lemma SentenceWalk(relevant: string -> bool)
    requires SentenceVerdicts(relevant)
    ensures Take(Walk(relevant, TAG_HIERARCHY), MAX_TAGS) ==
            ["tutorial", "idea", "remind", "remind-clients", "remind-internal", "ai", "ai-openai"]
  {
    TaxonomyStart();
    FirstSevenCategories(relevant, TAG_HIERARCHY);
    AiSubcategories(relevant);
    WalkPrefix(relevant, TAG_HIERARCHY, 7);
    var first := Walk(relevant, TAG_HIERARCHY[..7]);
    var walk := Walk(relevant, TAG_HIERARCHY);
    assert |first| >= 7 && first[..7] ==
           ["tutorial", "idea", "remind", "remind-clients", "remind-internal", "ai", "ai-openai"];
    assert walk[..7] == first[..7];
  }

  /** What the code returns for any note whose lower-cased text splits into
      the words of the sentence: seven names, the last two from the `ai`
      category, and none of the `tech` category that `programming`, `python`
      and `javascript` point to. */
  lemma ClassifyTheseWords(content: string)
    requires SplitWs(ToLower(content)) == WORDS
    ensures Classify(content) ==
            ["tutorial", "idea", "remind", "remind-clients", "remind-internal", "ai", "ai-openai"]
  {
    Verdicts(ToLower(content));
    SentenceWalk(Relevance(ToLower(content)));
  }

  /** The sentence itself is such a note. */
  lemma SentenceClassification()
    ensures Classify(SENTENCE) ==
            ["tutorial", "idea", "remind", "remind-clients", "remind-internal", "ai", "ai-openai"]
  {
    SentenceLower();
    SentenceWords();
    ClassifyTheseWords(SENTENCE);
  }
}
