/** The "already posted" ledger (`load_posted_articles`,
    `save_posted_articles`): a set of canonical source links kept in a JSON
    file. The file is modelled by the JSON document it holds; the text
    encoding of that document is not modelled. */
module Ledger {

  datatype Json =
    | JString(str: string)
    | JNumber(num: int)
    | JBool(b: bool)
    | JNull
    | JArray(items: seq<Json>)
    | JObject(members: seq<(string, Json)>)

  /** The ledger file: absent, not valid JSON (an empty file among them), or
      holding a document. */
  datatype LedgerFile = Missing | Unparsable | Parsed(doc: Json)

  /** Python can put the value in a set (lists and dicts cannot go in). */
  predicate Hashable(j: Json) {
    !j.JArray? && !j.JObject?
  }

  /** `posted_articles`: the links it holds, and whether a number, boolean
      or null from a stored list went into the set beside them. Such a value
      never equals a link, so only `links` decides the `in` tests. */
  datatype Posted = Posted(links: set<string>, stray: bool)

  /** `load_posted_articles`: a list gives its entries (an unhashable entry
      makes `set()` raise, and the exception yields the empty set), an object
      gives its keys, and anything else, a file that is not valid JSON or no
      file gives the empty set. */
  function Load(f: LedgerFile): (r: Posted)
    ensures f.Missing? || f.Unparsable? ==> r == Posted({}, false)
    ensures f.Parsed? && f.doc.JObject? ==>
              r == Posted(set i | 0 <= i < |f.doc.members| :: f.doc.members[i].0, false)
    ensures f.Parsed? && f.doc.JArray? ==>
              if forall i :: 0 <= i < |f.doc.items| ==> Hashable(f.doc.items[i])
              then && (forall x :: x in r.links <==> JString(x) in f.doc.items)
                   && (r.stray <==> exists i :: 0 <= i < |f.doc.items| && !f.doc.items[i].JString?)
              else r == Posted({}, false)
    ensures f.Parsed? && !f.doc.JArray? && !f.doc.JObject? ==> r == Posted({}, false)
  {
    match f
    case Parsed(JArray(items)) =>
      if forall i :: 0 <= i < |items| ==> Hashable(items[i])
      then Posted(set i | 0 <= i < |items| && items[i].JString? :: items[i].str,
                  exists i :: 0 <= i < |items| && !items[i].JString?)
      else Posted({}, false)
    case Parsed(JObject(members)) => Posted(set i | 0 <= i < |members| :: members[i].0, false)
    case _ => Posted({}, false)
  }

  // ----- code-point order -------------------------------------------------------

  /** `a < b` on Python strings: code-point lexicographic order. */
  predicate Below(a: string, b: string)
    decreases |a|
  {
    |b| > 0 && (|a| == 0 || a[0] < b[0] || (a[0] == b[0] && Below(a[1..], b[1..])))
  }

  lemma {:induction false} BelowIrreflexive(a: string)
    ensures !Below(a, a)
    decreases |a|
  {
    if |a| > 0 {
      BelowIrreflexive(a[1..]);
    }
  }

  lemma {:induction false} BelowTransitive(a: string, b: string, c: string)
    requires Below(a, b) && Below(b, c)
    ensures Below(a, c)
    decreases |a|
  {
    if |a| > 0 && a[0] == b[0] && b[0] == c[0] {
      BelowTransitive(a[1..], b[1..], c[1..]);
    }
  }

  lemma {:induction false} BelowTotal(a: string, b: string)
    requires a != b
    ensures Below(a, b) || Below(b, a)
    decreases |a|
  {
    if |a| > 0 && |b| > 0 && a[0] == b[0] {
      assert a == [a[0]] + a[1..] && b == [b[0]] + b[1..];
      BelowTotal(a[1..], b[1..]);
    }
  }

  predicate StrictlySorted(s: seq<string>) {
    forall i, j :: 0 <= i < j < |s| ==> Below(s[i], s[j])
  }

  /** x put into a strictly sorted list at its place. */
  function InsertSorted(x: string, s: seq<string>): (r: seq<string>)
    requires StrictlySorted(s) && x !in s
    ensures StrictlySorted(r)
    ensures forall y :: y in r <==> y == x || y in s
    decreases |s|
  {
    if |s| == 0 then [x]
    else if Below(x, s[0]) then
      BelowHeadBelowAll(x, s);
      LeastFirst(x, s);
      [x] + s
    else
      BelowTotal(x, s[0]);
      var tail := InsertSorted(x, s[1..]);
      assert forall y :: y in s <==> y == s[0] || y in s[1..];
      LeastFirst(s[0], tail);
      [s[0]] + tail
  }

  lemma BelowHeadBelowAll(x: string, s: seq<string>)
    requires StrictlySorted(s) && |s| > 0 && Below(x, s[0])
    ensures forall y :: y in s ==> Below(x, y)
  {
    forall j | 0 < j < |s| ensures Below(x, s[j]) {
      BelowTransitive(x, s[0], s[j]);
    }
  }

  /** Prepending an element below the head of a sorted list keeps it sorted. */
  lemma LeastFirst(x: string, s: seq<string>)
    requires StrictlySorted(s)
    requires forall y :: y in s ==> Below(x, y)
    ensures StrictlySorted([x] + s)
  {
    var r := [x] + s;
    forall i, j | 0 <= i < j < |r| ensures Below(r[i], r[j]) {
      assert r[j] == s[j - 1];
      if i > 0 { assert r[i] == s[i - 1]; }
    }
  }

  /** `sorted(ledger)` */
  method SortedLinks(ledger: set<string>) returns (r: seq<string>)
    ensures StrictlySorted(r)
    ensures forall x :: x in r <==> x in ledger
  {
    r := [];
    var rest := ledger;
    while rest != {}
      invariant StrictlySorted(r)
      invariant forall x :: x in ledger <==> x in r || x in rest
      invariant forall x :: x in r ==> x !in rest
      decreases |rest|
    {
      var x :| x in rest;
      r := InsertSorted(x, r);
      rest := rest - {x};
    }
  }

  /** `save_posted_articles`, which the script calls only right after adding
      a link. `open(..., 'w')` empties the file before `sorted` runs, and
      `sorted` raises TypeError when the set mixes links with other values:
      the file is then left empty, and the next load gives the empty ledger.
      Otherwise the document written is the sorted list of the links. */
  method Save(p: Posted) returns (f: LedgerFile, raised: bool)
    requires p.links != {}
    ensures raised <==> p.stray
    ensures raised ==> f == Unparsable && Load(f) == Posted({}, false)
    ensures !raised ==> && f.Parsed? && f.doc.JArray?
                        && (forall i :: 0 <= i < |f.doc.items| ==> f.doc.items[i].JString?)
                        && (forall i, j :: 0 <= i < j < |f.doc.items| ==> Below(f.doc.items[i].str, f.doc.items[j].str))
                        && Load(f) == p
  {
    if p.stray {
      return Unparsable, true;
    }
    raised := false;
    var ledger := p.links;
    var links := SortedLinks(ledger);
    var items := seq(|links|, i requires 0 <= i < |links| => JString(links[i]));
    f := Parsed(JArray(items));
    forall x | x in Load(f).links ensures x in ledger {
      var i :| 0 <= i < |items| && items[i] == JString(x);
      assert links[i] == x;
    }
    forall x | x in ledger ensures x in Load(f).links {
      var i :| 0 <= i < |links| && links[i] == x;
      assert items[i] == JString(x);
    }
    assert !Load(f).stray;
  }
}
