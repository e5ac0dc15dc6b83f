/** The body-extraction rules of `fetch_full_content` over an abstract
    element tree: the first container found in a fixed priority order, then
    the removal of script-like elements and of elements whose class names
    contain an advertising marker. */
module Extraction {
  import opened Basics

  /** An element with its tag name, its class names (`class` is a
      multi-valued attribute) and its children, or a run of text. */
  datatype Node = Element(tag: string, classes: seq<string>, children: seq<Node>) | Text(text: string)

  /** Every node of a forest in document (pre-)order. */
  function Flatten(ns: seq<Node>): seq<Node>
    decreases ns
  {
    if |ns| == 0 then []
    else [ns[0]] + (if ns[0].Element? then Flatten(ns[0].children) else []) + Flatten(ns[1..])
  }

  // ----- finding the container ---------------------------------------------------

  /** A `find` query: a tag name and, optionally, a class name. */
  datatype Query = Query(tag: string, className: Option<string>)

  predicate Matches(n: Node, q: Query) {
    n.Element? && n.tag == q.tag && (q.className.None? || q.className.value in n.classes)
  }

  /** `find(tag, class_=...)`: the first match in document order. */
  function Find(ns: seq<Node>, q: Query): (r: Option<Node>)
    ensures r.Some? ==> Matches(r.value, q)
    decreases ns
  {
    if |ns| == 0 then None
    else if Matches(ns[0], q) then Some(ns[0])
    else
      var inside := if ns[0].Element? then Find(ns[0].children, q) else None;
      if inside.Some? then inside else Find(ns[1..], q)
  }

  /** The first node of a flat list that matches. */
  function FirstIn(all: seq<Node>, q: Query): (r: Option<Node>)
    ensures r.None? <==> forall i :: 0 <= i < |all| ==> !Matches(all[i], q)
    ensures r.Some? ==> exists i :: 0 <= i < |all| && all[i] == r.value
                                    && forall j :: 0 <= j < i ==> !Matches(all[j], q)
    decreases |all|
  {
    if |all| == 0 then None
    else if Matches(all[0], q) then Some(all[0])
    else
      var r := FirstIn(all[1..], q);
      assert forall i :: 1 <= i < |all| ==> all[i] == all[1..][i - 1];
      r
  }

  lemma {:induction false} FirstInAppend(a: seq<Node>, b: seq<Node>, q: Query)
    ensures FirstIn(a + b, q) == if FirstIn(a, q).Some? then FirstIn(a, q) else FirstIn(b, q)
    decreases |a|
  {
    if |a| == 0 {
      assert a + b == b;
    } else {
      assert (a + b)[0] == a[0] && (a + b)[1..] == a[1..] + b;
      FirstInAppend(a[1..], b, q);
    }
  }

  /** `find` is the first match of the document order. */
  lemma {:induction false} FindIsFirstInOrder(ns: seq<Node>, q: Query)
    ensures Find(ns, q) == FirstIn(Flatten(ns), q)
    decreases ns
  {
    if |ns| > 0 {
      var inner := if ns[0].Element? then Flatten(ns[0].children) else [];
      var tail := Flatten(ns[1..]);
      assert Flatten(ns) == [ns[0]] + (inner + tail);
      FirstInAppend([ns[0]], inner + tail, q);
      FirstInAppend(inner, tail, q);
      if ns[0].Element? {
        FindIsFirstInOrder(ns[0].children, q);
      }
      FindIsFirstInOrder(ns[1..], q);
    }
  }

  /** The container queries in the order they are tried. */
  const ContainerQueries: seq<Query> := [
    Query("div", Some("entry-content")),
    Query("div", Some("post-content")),
    Query("div", Some("article-content")),
    Query("article", None)
  ]

  /** The first query, in priority order, that finds something. */
  function FirstFound(doc: seq<Node>, qs: seq<Query>): (r: Option<Node>)
    ensures r.None? <==> forall i :: 0 <= i < |qs| ==> Find(doc, qs[i]).None?
    ensures r.Some? ==> exists i :: 0 <= i < |qs| && Find(doc, qs[i]) == r
                                    && forall j :: 0 <= j < i ==> Find(doc, qs[j]).None?
    decreases |qs|
  {
    if |qs| == 0 then None
    else if Find(doc, qs[0]).Some? then Find(doc, qs[0])
    else
      var r := FirstFound(doc, qs[1..]);
      assert forall i :: 1 <= i < |qs| ==> qs[i] == qs[1..][i - 1];
      r
  }

  /** The chosen body container; None when the page has none of them. */
  function ChooseContainer(doc: seq<Node>): (r: Option<Node>)
    ensures r.Some? ==> r.value.Element?
  {
    FirstFound(doc, ContainerQueries)
  }

  /** An "entry-content" div anywhere in the page wins over every other container. */
  lemma EntryContentWins(doc: seq<Node>)
    requires Find(doc, ContainerQueries[0]).Some?
    ensures ChooseContainer(doc) == Find(doc, Query("div", Some("entry-content")))
  {
  }

  /** A bare `article` is used only when none of the three divs is present. */
  lemma ArticleIsLastResort(doc: seq<Node>)
    requires ChooseContainer(doc).Some? && ChooseContainer(doc).value.tag == "article"
    ensures forall i :: 0 <= i < 3 ==> Find(doc, ContainerQueries[i]).None?
  {
    var r := ChooseContainer(doc);
    var i :| 0 <= i < |ContainerQueries| && Find(doc, ContainerQueries[i]) == r
             && forall j :: 0 <= j < i ==> Find(doc, ContainerQueries[j]).None?;
    assert Matches(r.value, ContainerQueries[i]);
  }

  // ----- cleaning -------------------------------------------------------------------

  /** Tag names whose elements are removed. */
  const RemovedTags: set<string> := {"script", "style", "iframe", "noscript", "form", "nav"}

  /** Class-name fragments whose elements are removed, one pass each, in this order. */
  const AdMarkers: seq<string> := ["ad", "advertisement", "banner", "sidebar"]

  /** What one removal pass looks for. */
  datatype Rule = ByTag(tags: set<string>) | ByMarker(marker: string)

  /** Whether a rule removes n. A class-name filter receives each class name
      in turn (`x and marker in x.lower()`); since no marker holds a blank,
      testing the names joined by blanks adds nothing. */
  predicate Drops(rule: Rule, n: Node) {
    n.Element? &&
    match rule
    case ByTag(tags) => n.tag in tags
    case ByMarker(marker) => exists c :: c in n.classes && Contains(Lower(c), marker)
  }

  /** `for e in find_all(...): e.decompose()`: every node the rule matches
      goes, with its whole subtree. */
  function Prune(ns: seq<Node>, rule: Rule): seq<Node>
    decreases ns
  {
    if |ns| == 0 then []
    else if Drops(rule, ns[0]) then Prune(ns[1..], rule)
    else
      var kept := match ns[0]
        case Text(_) => ns[0]
        case Element(tag, classes, children) => Element(tag, classes, Prune(children, rule));
      [kept] + Prune(ns[1..], rule)
  }

  /** No node of the forest, at any depth, is one the rule removes. */
  predicate Clean(ns: seq<Node>, rule: Rule)
    decreases ns
  {
    |ns| == 0 || (!Drops(rule, ns[0]) && (ns[0].Element? ==> Clean(ns[0].children, rule)) && Clean(ns[1..], rule))
  }

  /** `Clean` read over the document order. */
  lemma {:induction false} CleanIsNoneInOrder(ns: seq<Node>, rule: Rule)
    ensures Clean(ns, rule) <==> forall i :: 0 <= i < |Flatten(ns)| ==> !Drops(rule, Flatten(ns)[i])
    decreases ns
  {
    if |ns| > 0 {
      var inner := if ns[0].Element? then Flatten(ns[0].children) else [];
      var tail := Flatten(ns[1..]);
      var all := Flatten(ns);
      assert all == [ns[0]] + inner + tail;
      if ns[0].Element? {
        CleanIsNoneInOrder(ns[0].children, rule);
      }
      CleanIsNoneInOrder(ns[1..], rule);
      if Clean(ns, rule) {
        forall i | 0 <= i < |all| ensures !Drops(rule, all[i]) {
          if i == 0 {
            assert all[0] == ns[0];
            assert !Drops(rule, ns[0]);
          } else if i < 1 + |inner| {
            assert ns[0].Element? && Clean(ns[0].children, rule);
            assert all[i] == inner[i - 1] == Flatten(ns[0].children)[i - 1];
            assert !Drops(rule, Flatten(ns[0].children)[i - 1]);
          } else {
            var j := i - 1 - |inner|;
            assert 0 <= j < |tail| && all[i] == tail[j];
            assert Clean(ns[1..], rule);
            assert !Drops(rule, Flatten(ns[1..])[j]);
          }
        }
      }
      if forall i :: 0 <= i < |all| ==> !Drops(rule, all[i]) {
        assert all[0] == ns[0];
        forall j | 0 <= j < |inner| ensures !Drops(rule, inner[j]) {
          assert all[1 + j] == inner[j];
        }
        forall j | 0 <= j < |tail| ensures !Drops(rule, tail[j]) {
          assert all[1 + |inner| + j] == tail[j];
        }
      }
    }
  }

  /** After a pass, nothing it matches is left. */
  lemma {:induction false} PruneCleans(ns: seq<Node>, rule: Rule)
    ensures Clean(Prune(ns, rule), rule)
    decreases ns
  {
    if |ns| > 0 {
      PruneCleans(ns[1..], rule);
      if !Drops(rule, ns[0]) && ns[0].Element? {
        PruneCleans(ns[0].children, rule);
      }
    }
  }

  /** A pass removes nodes and nothing else, so what was clean stays clean. */
  lemma {:induction false} PruneKeepsClean(ns: seq<Node>, rule: Rule, other: Rule)
    requires Clean(ns, other)
    ensures Clean(Prune(ns, rule), other)
    decreases ns
  {
    if |ns| > 0 {
      PruneKeepsClean(ns[1..], rule, other);
      if !Drops(rule, ns[0]) && ns[0].Element? {
        PruneKeepsClean(ns[0].children, rule, other);
      }
    }
  }

  /** A pass over a forest with nothing to remove changes nothing. */
  lemma {:induction false} PruneNothing(ns: seq<Node>, rule: Rule)
    requires Clean(ns, rule)
    ensures Prune(ns, rule) == ns
    decreases ns
  {
    if |ns| > 0 {
      PruneNothing(ns[1..], rule);
      if ns[0].Element? {
        PruneNothing(ns[0].children, rule);
      }
      assert ns == [ns[0]] + ns[1..];
    }
  }

  /** The passes in their order: the tag pass, then one pass per marker. */
  function Passes(): seq<Rule> {
    [ByTag(RemovedTags)] + seq(|AdMarkers|, i requires 0 <= i < |AdMarkers| => ByMarker(AdMarkers[i]))
  }

  function PruneAll(ns: seq<Node>, rules: seq<Rule>): seq<Node>
    decreases |rules|
  {
    if |rules| == 0 then ns else PruneAll(Prune(ns, rules[0]), rules[1..])
  }

  /** After all passes the forest is clean for every one of them. */
  lemma {:induction false} PruneAllCleans(ns: seq<Node>, rules: seq<Rule>)
    ensures forall k :: 0 <= k < |rules| ==> Clean(PruneAll(ns, rules), rules[k])
    decreases |rules|
  {
    if |rules| > 0 {
      var once := Prune(ns, rules[0]);
      PruneCleans(ns, rules[0]);
      PruneAllCleans(once, rules[1..]);
      PruneAllKeepsClean(once, rules[1..], rules[0]);
      forall k | 0 < k < |rules| ensures Clean(PruneAll(ns, rules), rules[k]) {
        assert rules[k] == rules[1..][k - 1];
      }
    }
  }

  lemma {:induction false} PruneAllKeepsClean(ns: seq<Node>, rules: seq<Rule>, done: Rule)
    requires Clean(ns, done)
    ensures Clean(PruneAll(ns, rules), done)
    decreases |rules|
  {
    if |rules| > 0 {
      PruneKeepsClean(ns, rules[0], done);
      PruneAllKeepsClean(Prune(ns, rules[0]), rules[1..], done);
    }
  }

  lemma {:induction false} PruneAllNothing(ns: seq<Node>, rules: seq<Rule>)
    requires forall k :: 0 <= k < |rules| ==> Clean(ns, rules[k])
    ensures PruneAll(ns, rules) == ns
    decreases |rules|
  {
    if |rules| > 0 {
      PruneNothing(ns, rules[0]);
      assert forall k :: 0 <= k < |rules[1..]| ==> rules[1..][k] == rules[k + 1];
      PruneAllNothing(ns, rules[1..]);
    }
  }

  /** The cleaning of `fetch_full_content`: only the container's descendants
      are examined, so the container itself always stays; below it, no node
      is left that any pass matches. */
  function CleanContainer(c: Node): (r: Node)
    requires c.Element?
    ensures r.Element? && r.tag == c.tag && r.classes == c.classes
    ensures forall k :: 0 <= k < |Passes()| ==> Clean(r.children, Passes()[k])
  {
    PruneAllCleans(c.children, Passes());
    Element(c.tag, c.classes, PruneAll(c.children, Passes()))
  }

  /** No descendant of the cleaned container has a removed tag name or a
      class name holding an advertising marker. */
  lemma CleanedBodyHasNoRemovedNode(c: Node, d: Node)
    requires c.Element? && d in Flatten(CleanContainer(c).children)
    ensures d.Element? ==> d.tag !in RemovedTags
    ensures d.Element? ==> forall m, x :: m in AdMarkers && x in d.classes ==> !Contains(Lower(x), m)
  {
    var kids := CleanContainer(c).children;
    var passes := Passes();
    var i :| 0 <= i < |Flatten(kids)| && Flatten(kids)[i] == d;
    forall k | 0 <= k < |passes| ensures !Drops(passes[k], d) {
      CleanIsNoneInOrder(kids, passes[k]);
    }
    assert passes[0] == ByTag(RemovedTags);
    if d.Element? {
      forall m, x | m in AdMarkers && x in d.classes ensures !Contains(Lower(x), m) {
        var j :| 0 <= j < |AdMarkers| && AdMarkers[j] == m;
        assert passes[1 + j] == ByMarker(m);
      }
    }
  }

  /** A container with nothing to remove is returned as it is. */
  lemma CleanContainerKeepsCleanBody(c: Node)
    requires c.Element?
    requires forall k :: 0 <= k < |Passes()| ==> Clean(c.children, Passes()[k])
    ensures CleanContainer(c) == c
  {
    PruneAllNothing(c.children, Passes());
  }

  /** The body as `fetch_full_content` finds and cleans it (before it is
      written back out as HTML); None when the page has no container. */
  function ExtractBody(doc: seq<Node>): (r: Option<Node>)
    ensures r.None? <==> forall i :: 0 <= i < |ContainerQueries| ==> Find(doc, ContainerQueries[i]).None?
    ensures r.Some? ==> ChooseContainer(doc).Some? && r.value == CleanContainer(ChooseContainer(doc).value)
  {
    match ChooseContainer(doc)
    case None => None
    case Some(c) => Some(CleanContainer(c))
  }

  /** The marker test is a substring test, so a class such as "header" or
      "shadow" counts as an advertisement too. */
  lemma SubstringMarkerCatchesHeader(tag: string, children: seq<Node>)
    ensures Drops(ByMarker("ad"), Element(tag, ["header"], children))
  {
    var c := "header";
    assert Lower(c) == c;
    assert c[2..][..2] == "ad";
    assert Contains(c[2..], "ad");
    assert Contains(c[1..], "ad");
    assert Contains(c, "ad");
  }
}
