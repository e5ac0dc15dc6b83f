/** Candidate selection (`fetch_source_articles`): listing pages are scanned
    in order, entries are reduced to canonical links, repeats and already
    posted links are skipped, collection stops at the daily limit, and the
    result is ordered newest first. */
module Selection {
  import opened Basics
  import opened SourceUrl
  import opened SourceTime

  /** The script's settings: `DAILY_POST_LIMIT`, `SOURCE_SCAN_MAX_PAGES`
      (both at least 1) and `FORCE_UPDATE`. */
  datatype Config = Config(dailyLimit: int, maxPages: int, forceUpdate: bool)

  predicate ValidConfig(cfg: Config) {
    cfg.dailyLimit >= 1 && cfg.maxPages >= 1
  }

  /** The settings when no environment variable overrides them. */
  const DefaultConfig: Config := Config(10, 60, false)

  /** One entry of a listing page as the loop meets it.
      - `link`: the `link` field, `Some("")` when it is absent or falsy (it
        normalises to "" and is skipped); None for a truthy value that is not
        a string, whose `.strip()` raises.
      - `title`: the text of `title.rendered`, "" when either is absent; None
        when `title` is not an object or `rendered` is not a string, which
        raises once the loop reads the title.
      - `date`, `dateGmt`: the two date fields, "" when absent or falsy. A
        truthy value that is not a string raises inside the `try` of
        `parse_source_datetime`, so it acts as any text that is no date.
      - `readAt`: what `datetime.now(SOURCE_TZ)` returns when the loop parses
        this entry's date; every entry has its own reading.
      `NotAnObject` is an entry that is not a JSON object: its `.get` raises. */
  datatype Post =
    | Post(link: Option<string>, title: Option<string>, date: string, dateGmt: string, readAt: SourceNow)
    | NotAnObject

  /** The answer to one listing request: `Stop` is a 400 status, any other
      error status or a failed request. */
  datatype Page<T> = Stop | Posts(posts: seq<T>)

  datatype Article = Article(title: string, link: string, date: ZonedTime)

  const UntitledTitle: string := "제목 없음"

  /** An entry as the loop reads it: the canonical link, the title text
      (None when reading it raises) and the parsed date; `Unreadable` when
      reading the link raises. Each reading is pure, so reading it up front,
      as here, decides the same as reading it when the loop reaches it; where
      the loop reads it is where a fault takes effect (`ScanPosts`). */
  datatype Entry = Entry(link: string, title: Option<string>, date: ZonedTime) | Unreadable

  function ReadPost(p: Post): (e: Entry)
    ensures e.Unreadable? <==> p.NotAnObject? || p.link.None?
    ensures e.Entry? ==> && e.link == NormalizeSourceUrl(p.link.value)
                         && e.title == p.title
                         && IsSourceTime(e.date)
                         && e.date == ParseSourceDatetime(p.date, p.dateGmt, p.readAt)
  {
    match p
    case NotAnObject => Unreadable
    case Post(link, title, date, dateGmt, readAt) =>
      if link.None? then Unreadable
      else Entry(NormalizeSourceUrl(link.value), title, ParseSourceDatetime(date, dateGmt, readAt))
  }

  /** The article collected from an entry whose title could be read: the
      title, or "제목 없음" when it is empty. */
  function ArticleOf(link: string, title: string, date: ZonedTime): (a: Article)
    ensures a.link == link && a.date == date && a.title != []
    ensures title != [] ==> a.title == title
  {
    Article(if title == [] then UntitledTitle else title, link, date)
  }

  function ReadPage(page: Page<Post>): (r: Page<Entry>)
    ensures r.Stop? <==> page.Stop?
    ensures r.Posts? ==> |r.posts| == |page.posts|
                         && forall i :: 0 <= i < |r.posts| ==> r.posts[i] == ReadPost(page.posts[i])
  {
    match page
    case Stop => Stop
    case Posts(ps) => Posts(seq(|ps|, i requires 0 <= i < |ps| => ReadPost(ps[i])))
  }

  /** Every entry read has a +09:00 date. */
  predicate WellRead(es: seq<Entry>) {
    forall i :: 0 <= i < |es| && es[i].Entry? ==> IsSourceTime(es[i].date)
  }

  predicate PagesWellRead(pages: seq<Page<Entry>>) {
    forall i :: 0 <= i < |pages| && pages[i].Posts? ==> WellRead(pages[i].posts)
  }

  function Links(s: seq<Article>): set<string> {
    set i | 0 <= i < |s| :: s[i].link
  }

  lemma LinksCons(a: Article, s: seq<Article>)
    ensures Links([a] + s) == {a.link} + Links(s)
  {
    var r := [a] + s;
    forall x | x in Links(r) ensures x in {a.link} + Links(s) {
      var i :| 0 <= i < |r| && r[i].link == x;
      if i > 0 { assert r[i] == s[i - 1]; }
    }
    forall x | x in Links(s) ensures x in Links(r) {
      var i :| 0 <= i < |s| && s[i].link == x;
      assert r[i + 1] == s[i];
    }
    assert r[0] == a;
  }

  predicate DistinctLinks(s: seq<Article>) {
    forall i, j :: 0 <= i < j < |s| ==> s[i].link != s[j].link
  }

  /** What every selected article satisfies: a non-empty canonical link that
      was not seen before and, unless forced, is not in the ledger, a
      non-empty title and a +09:00 date. */
  predicate Admissible(a: Article, seen: set<string>, ledger: set<string>, cfg: Config) {
    && a.link != [] && a.link !in seen
    && (!cfg.forceUpdate ==> a.link !in ledger)
    && a.title != [] && IsSourceTime(a.date)
  }

  // ----- the entry stream as a reference definition ----------------------------

  /** The canonical links of the entries that would be collected with no
      limit and no fault. */
  function EligibleKeys(es: seq<Entry>, seen: set<string>, ledger: set<string>, cfg: Config): set<string> {
    set i | 0 <= i < |es| && es[i].Entry? && es[i].link != [] && es[i].link !in seen
                            && (cfg.forceUpdate || es[i].link !in ledger) :: es[i].link
  }

  /** No entry of the stream raises: every link and every title can be read. */
  predicate NoFault(es: seq<Entry>) {
    forall i :: 0 <= i < |es| ==> es[i].Entry? && es[i].title.Some?
  }

  /** The entries of a stream, first to last, that pass the link checks, with
      no limit. Reading stops at the first entry that raises: one whose link
      cannot be read, or a new, unposted link whose title cannot be read. */
  function Collect(es: seq<Entry>, seen: set<string>, ledger: set<string>, cfg: Config): (r: seq<Article>)
    requires WellRead(es)
    ensures forall i :: 0 <= i < |r| ==> Admissible(r[i], seen, ledger, cfg)
    ensures DistinctLinks(r)
    ensures Links(r) <= EligibleKeys(es, seen, ledger, cfg)
    ensures NoFault(es) ==> Links(r) == EligibleKeys(es, seen, ledger, cfg)
    decreases |es|
  {
    if |es| == 0 then []
    else match es[0]
      case Unreadable => []
      case Entry(link, title, date) =>
        EligibleStep(es, seen, ledger, cfg);
        assert WellRead(es[1..]);
        assert NoFault(es) ==> NoFault(es[1..]) by {
          if NoFault(es) {
            forall i | 0 <= i < |es[1..]| ensures es[1..][i].Entry? && es[1..][i].title.Some? {
              assert es[1..][i] == es[i + 1];
            }
          }
        }
        if link == [] || link in seen then
          Collect(es[1..], seen, ledger, cfg)
        else if !cfg.forceUpdate && link in ledger then
          Collect(es[1..], seen + {link}, ledger, cfg)
        else if title.None? then
          assert !NoFault(es) by { assert !(es[0].Entry? && es[0].title.Some?); }
          []
        else
          var a := ArticleOf(link, title.value, date);
          var rest := Collect(es[1..], seen + {link}, ledger, cfg);
          LinksCons(a, rest);
          [a] + rest
  }

  /** How the eligible keys of a stream split at its first entry. */
  lemma EligibleStep(es: seq<Entry>, seen: set<string>, ledger: set<string>, cfg: Config)
    requires |es| > 0 && es[0].Entry?
    ensures var link := es[0].link;
            var tail := es[1..];
            EligibleKeys(es, seen, ledger, cfg) ==
              if link == [] || link in seen then EligibleKeys(tail, seen, ledger, cfg)
              else if !cfg.forceUpdate && link in ledger then EligibleKeys(tail, seen + {link}, ledger, cfg)
              else {link} + EligibleKeys(tail, seen + {link}, ledger, cfg)
  {
    var link := es[0].link;
    var tail := es[1..];
    var all := EligibleKeys(es, seen, ledger, cfg);
    var narrow := if link == [] || link in seen then seen else seen + {link};
    var later := EligibleKeys(tail, narrow, ledger, cfg);
    forall x | x in all ensures x in later || (x == link && x !in seen && x != [] && (cfg.forceUpdate || x !in ledger)) {
      var i :| 0 <= i < |es| && es[i].Entry? && es[i].link == x && x != [] && x !in seen
                && (cfg.forceUpdate || x !in ledger);
      if i > 0 && x != link {
        assert tail[i - 1] == es[i];
      }
    }
    forall x | x in later ensures x in all {
      var i :| 0 <= i < |tail| && tail[i].Entry? && tail[i].link == x && x != [] && x !in narrow
                && (cfg.forceUpdate || x !in ledger);
      assert es[i + 1] == tail[i];
    }
    if link != [] && link !in seen && (cfg.forceUpdate || link !in ledger) {
      assert link in all;
    }
  }

  /** A falsy link becomes "" and the entry is passed over, whatever its
      title: it neither raises nor ends the scan. */
  lemma FalsyLinkPassedOver(p: Post, rest: seq<Entry>, seen: set<string>, ledger: set<string>, cfg: Config)
    requires p.Post? && p.link == Some([]) && WellRead(rest)
    ensures WellRead([ReadPost(p)] + rest)
    ensures Collect([ReadPost(p)] + rest, seen, ledger, cfg) == Collect(rest, seen, ledger, cfg)
  {
  }

  /** A title that cannot be read raises only for a new, unposted link: an
      empty, seen or (unless forced) posted link is passed over before the
      title is read. */
  lemma TitleReadAfterLinkChecks(p: Post, rest: seq<Entry>, seen: set<string>, ledger: set<string>, cfg: Config)
    requires p.Post? && p.link.Some? && p.title.None? && WellRead(rest)
    ensures WellRead([ReadPost(p)] + rest)
    ensures var k := NormalizeSourceUrl(p.link.value);
            var r := Collect([ReadPost(p)] + rest, seen, ledger, cfg);
            if k == [] || k in seen then r == Collect(rest, seen, ledger, cfg)
            else if !cfg.forceUpdate && k in ledger then r == Collect(rest, seen + {k}, ledger, cfg)
            else r == []
  {
  }

  /** An entry whose dates cannot be read is dated by its own clock reading,
      so entries read later fall back to later times. */
  lemma UndatedEntryTakesItsReading(p: Post)
    requires p.Post? && p.link.Some?
    requires p.dateGmt != [] ==> ReadGmt(p.dateGmt).None?
    requires p.dateGmt == [] ==> p.date == [] || ReadLocal(p.date).None?
    ensures ReadPost(p).date == p.readAt
  {
  }

  // ----- the page loop as written ----------------------------------------------

  /** The loop state: `collected`, `seen_links`, and whether an exception ended the scan. */
  datatype Scan = Scan(collected: seq<Article>, seen: set<string>, failed: bool)

  /** The inner loop over the entries of one page. The link is read first
      (an unreadable one raises); an empty or already seen link is passed
      over, the link is marked seen, a posted one is passed over unless
      forced, and only then is the title read (an unreadable one raises). */
  function ScanPosts(es: seq<Entry>, ledger: set<string>, cfg: Config, st: Scan): Scan
    decreases |es|
  {
    if |es| == 0 then st
    else match es[0]
      case Unreadable => st.(failed := true)
      case Entry(link, title, date) =>
        if link == [] || link in st.seen then ScanPosts(es[1..], ledger, cfg, st)
        else
          var seen := st.seen + {link};
          if !cfg.forceUpdate && link in ledger then ScanPosts(es[1..], ledger, cfg, st.(seen := seen))
          else if title.None? then Scan(st.collected, seen, true)
          else
            var collected := st.collected + [ArticleOf(link, title.value, date)];
            if |collected| >= cfg.dailyLimit then Scan(collected, seen, st.failed)
            else ScanPosts(es[1..], ledger, cfg, Scan(collected, seen, st.failed))
  }

  /** The outer loop over pages 1, 2, ...; `budget` pages may still be
      requested. Pages past the end of `pages` answer as `Stop`. */
  function ScanPages(pages: seq<Page<Entry>>, budget: nat, ledger: set<string>, cfg: Config, st: Scan): Scan
    decreases budget
  {
    if budget == 0 || |pages| == 0 then st
    else match pages[0]
      case Stop => st
      case Posts(es) =>
        if es == [] then st
        else
          var next := ScanPosts(es, ledger, cfg, st);
          if next.failed || |next.collected| >= cfg.dailyLimit then next
          else ScanPages(pages[1..], budget - 1, ledger, cfg, next)
  }

  function ReadPages(pages: seq<Page<Post>>): (r: seq<Page<Entry>>)
    ensures |r| == |pages| && PagesWellRead(r)
    ensures forall i :: 0 <= i < |r| ==> r[i] == ReadPage(pages[i])
  {
    seq(|pages|, i requires 0 <= i < |pages| => ReadPage(pages[i]))
  }

  /** `collected` when the page loop ends. */
  function Candidates(pages: seq<Page<Post>>, ledger: set<string>, cfg: Config): seq<Article>
    requires ValidConfig(cfg)
  {
    ScanPages(ReadPages(pages), cfg.maxPages, ledger, cfg, Scan([], {}, false)).collected
  }

  /** The entries the loop can reach, page after page, up to the first page
      that stops it or the page budget. */
  function Stream(pages: seq<Page<Entry>>, budget: nat): (r: seq<Entry>)
    requires PagesWellRead(pages)
    ensures WellRead(r)
    decreases budget
  {
    if budget == 0 || |pages| == 0 then []
    else match pages[0]
      case Stop => []
      case Posts(es) =>
        if es == [] then []
        else
          var tail := Stream(pages[1..], budget - 1);
          assert forall i :: |es| <= i < |es + tail| ==> (es + tail)[i] == tail[i - |es|];
          es + tail
  }

  function Take(s: seq<Article>, n: int): (r: seq<Article>)
    ensures |r| <= |s| && r == s[..|r|]
    ensures n >= 0 ==> |r| == if |s| <= n then |s| else n
  {
    if |s| <= n then s else if n <= 0 then [] else s[..n]
  }

  // ----- the loop equals the reference -----------------------------------------

  lemma TakeFull(s: seq<Article>, t: seq<Article>, n: int)
    requires |s| == n
    ensures Take(s + t, n) == s
  {
    assert (s + t)[..n] == s;
  }

  /** One page of the loop: either the scan halts on this page, with what
      the limited stream would give, or it continues with a state from
      which the rest of the stream is read on. */
  lemma {:induction false} ScanPostsFollowsStream(es: seq<Entry>, rest: seq<Entry>, ledger: set<string>,
                                                  cfg: Config, st: Scan)
    requires WellRead(es + rest) && !st.failed && |st.collected| < cfg.dailyLimit
    ensures var r := ScanPosts(es, ledger, cfg, st);
            var whole := Take(st.collected + Collect(es + rest, st.seen, ledger, cfg), cfg.dailyLimit);
            if r.failed || |r.collected| >= cfg.dailyLimit then r.collected == whole
            else WellRead(rest) && whole == Take(r.collected + Collect(rest, r.seen, ledger, cfg), cfg.dailyLimit)
    decreases |es|
  {
    var all := es + rest;
    if |es| == 0 {
      assert all == rest;
    } else {
      assert all[0] == es[0] && all[1..] == es[1..] + rest;
      match es[0]
      case Unreadable =>
        assert Collect(all, st.seen, ledger, cfg) == [];
        assert st.collected + [] == st.collected;
      case Entry(link, title, date) =>
        assert WellRead(all[1..]);
        if link == [] || link in st.seen {
          ScanPostsFollowsStream(es[1..], rest, ledger, cfg, st);
        } else if !cfg.forceUpdate && link in ledger {
          ScanPostsFollowsStream(es[1..], rest, ledger, cfg, st.(seen := st.seen + {link}));
        } else if title.None? {
          assert Collect(all, st.seen, ledger, cfg) == [];
          assert st.collected + [] == st.collected;
        } else {
          var a := ArticleOf(link, title.value, date);
          var tail := Collect(all[1..], st.seen + {link}, ledger, cfg);
          assert Collect(all, st.seen, ledger, cfg) == [a] + tail;
          assert st.collected + ([a] + tail) == (st.collected + [a]) + tail;
          var collected := st.collected + [a];
          if |collected| >= cfg.dailyLimit {
            TakeFull(collected, tail, cfg.dailyLimit);
          } else {
            ScanPostsFollowsStream(es[1..], rest, ledger, cfg, Scan(collected, st.seen + {link}, false));
          }
        }
    }
  }

  lemma {:induction false} ScanPagesFollowsStream(pages: seq<Page<Entry>>, budget: nat, ledger: set<string>,
                                                  cfg: Config, st: Scan)
    requires PagesWellRead(pages) && !st.failed && |st.collected| < cfg.dailyLimit
    ensures ScanPages(pages, budget, ledger, cfg, st).collected
            == Take(st.collected + Collect(Stream(pages, budget), st.seen, ledger, cfg), cfg.dailyLimit)
    decreases budget
  {
    if budget == 0 || |pages| == 0 || pages[0].Stop? || pages[0].posts == [] {
      assert st.collected + [] == st.collected;
    } else {
      var es := pages[0].posts;
      assert PagesWellRead(pages[1..]);
      var rest := Stream(pages[1..], budget - 1);
      assert Stream(pages, budget) == es + rest;
      ScanPostsFollowsStream(es, rest, ledger, cfg, st);
      var next := ScanPosts(es, ledger, cfg, st);
      if !(next.failed || |next.collected| >= cfg.dailyLimit) {
        ScanPagesFollowsStream(pages[1..], budget - 1, ledger, cfg, next);
      }
    }
  }

  /** The page loop with its breaks collects exactly the first
      `DAILY_POST_LIMIT` articles of the reachable stream: where the pages
      break does not matter. */
  lemma CandidatesAreStreamPrefix(pages: seq<Page<Post>>, ledger: set<string>, cfg: Config)
    requires ValidConfig(cfg)
    ensures var stream := Stream(ReadPages(pages), cfg.maxPages);
            Candidates(pages, ledger, cfg) == Take(Collect(stream, {}, ledger, cfg), cfg.dailyLimit)
  {
    var stream := Stream(ReadPages(pages), cfg.maxPages);
    ScanPagesFollowsStream(ReadPages(pages), cfg.maxPages, ledger, cfg, Scan([], {}, false));
    assert [] + Collect(stream, {}, ledger, cfg) == Collect(stream, {}, ledger, cfg);
  }

  // ----- newest first ------------------------------------------------------------

  /** Ordered by publication instant, latest first (aware `datetime`s compare by instant). */
  predicate NewestFirst(s: seq<Article>) {
    forall i, j :: 0 <= i < j < |s| ==> s[i].date.instant >= s[j].date.instant
  }

  /** a placed after every element at least as new, before the first older one. */
  function Insert(a: Article, s: seq<Article>): (r: seq<Article>)
    ensures multiset(r) == multiset(s) + multiset{a}
    ensures NewestFirst(s) ==> NewestFirst(r)
    decreases |s|
  {
    if |s| == 0 || s[0].date.instant < a.date.instant then
      if NewestFirst(s) then
        ConsNewest(a, s);
        [a] + s
      else [a] + s
    else
      var tail := Insert(a, s[1..]);
      assert s == [s[0]] + s[1..];
      if NewestFirst(s) then
        HeadIsNewest(a, s, tail);
        ConsNewest(s[0], tail);
        [s[0]] + tail
      else [s[0]] + tail
  }

  lemma ConsNewest(a: Article, s: seq<Article>)
    requires NewestFirst(s)
    requires forall j :: 0 <= j < |s| ==> a.date.instant >= s[j].date.instant
    ensures NewestFirst([a] + s)
  {
    var r := [a] + s;
    forall i, j | 0 <= i < j < |r| ensures r[i].date.instant >= r[j].date.instant {
      assert r[j] == s[j - 1];
      if i > 0 { assert r[i] == s[i - 1]; }
    }
  }

  lemma {:induction false} InsertLinks(a: Article, s: seq<Article>)
    ensures Links(Insert(a, s)) == Links(s) + {a.link}
    decreases |s|
  {
    if |s| == 0 || s[0].date.instant < a.date.instant {
      LinksCons(a, s);
    } else {
      InsertLinks(a, s[1..]);
      assert s == [s[0]] + s[1..];
      LinksCons(s[0], s[1..]);
      LinksCons(s[0], Insert(a, s[1..]));
    }
  }

  lemma HeadIsNewest(a: Article, s: seq<Article>, tail: seq<Article>)
    requires |s| > 0 && NewestFirst(s) && s[0].date.instant >= a.date.instant
    requires multiset(tail) == multiset(s[1..]) + multiset{a}
    ensures forall j :: 0 <= j < |tail| ==> s[0].date.instant >= tail[j].date.instant
  {
    forall j | 0 <= j < |tail| ensures s[0].date.instant >= tail[j].date.instant {
      assert tail[j] in multiset(tail);
      if tail[j] != a {
        assert tail[j] in multiset(s[1..]);
        var k :| 0 <= k < |s[1..]| && s[1..][k] == tail[j];
        assert s[k + 1] == tail[j];
      }
    }
  }

  /** `sort(key=date, reverse=True)`: an insertion sort that keeps articles
      with equal dates in their original order. */
  function SortNewestFirst(s: seq<Article>): (r: seq<Article>)
    ensures multiset(r) == multiset(s)
    ensures Links(r) == Links(s)
    ensures NewestFirst(r)
    decreases |s|
  {
    if |s| == 0 then []
    else
      var init := s[..|s| - 1];
      assert s == init + [s[|s| - 1]];
      LinksSnoc(init, s[|s| - 1]);
      InsertLinks(s[|s| - 1], SortNewestFirst(init));
      Insert(s[|s| - 1], SortNewestFirst(init))
  }

  lemma LinksSnoc(s: seq<Article>, a: Article)
    ensures Links(s + [a]) == Links(s) + {a.link}
  {
    var r := s + [a];
    forall x | x in Links(r) ensures x in Links(s) + {a.link} {
      var i :| 0 <= i < |r| && r[i].link == x;
      if i < |s| { assert r[i] == s[i]; }
    }
    forall x | x in Links(s) ensures x in Links(r) {
      var i :| 0 <= i < |s| && s[i].link == x;
      assert r[i] == s[i];
    }
    assert r[|s|] == a;
  }

  /** The articles published at instant t, in their order in s. */
  function AtInstant(s: seq<Article>, t: int): seq<Article>
    decreases |s|
  {
    if |s| == 0 then [] else (if s[0].date.instant == t then [s[0]] else []) + AtInstant(s[1..], t)
  }

  lemma {:induction false} AtInstantSnoc(s: seq<Article>, a: Article, t: int)
    ensures AtInstant(s + [a], t) == AtInstant(s, t) + (if a.date.instant == t then [a] else [])
    decreases |s|
  {
    if |s| > 0 {
      assert (s + [a])[1..] == s[1..] + [a];
      AtInstantSnoc(s[1..], a, t);
    } else {
      assert s + [a] == [a];
    }
  }

  lemma {:induction false} AtInstantNone(s: seq<Article>, t: int)
    requires forall i :: 0 <= i < |s| ==> s[i].date.instant < t
    ensures AtInstant(s, t) == []
    decreases |s|
  {
    if |s| > 0 {
      AtInstantNone(s[1..], t);
    }
  }

  lemma {:induction false} InsertStable(a: Article, s: seq<Article>, t: int)
    requires NewestFirst(s)
    ensures AtInstant(Insert(a, s), t) == AtInstant(s, t) + (if a.date.instant == t then [a] else [])
    decreases |s|
  {
    if |s| == 0 || s[0].date.instant < a.date.instant {
      assert Insert(a, s) == [a] + s;
      AtInstantCons(a, s, t);
      if a.date.instant == t {
        AtInstantNone(s, t);
      }
    } else {
      var tail := Insert(a, s[1..]);
      assert Insert(a, s) == [s[0]] + tail;
      assert NewestFirst(s[1..]);
      InsertStable(a, s[1..], t);
      AtInstantCons(s[0], tail, t);
      assert s == [s[0]] + s[1..];
      AtInstantCons(s[0], s[1..], t);
    }
  }

  lemma AtInstantCons(x: Article, rest: seq<Article>, t: int)
    ensures AtInstant([x] + rest, t) == (if x.date.instant == t then [x] else []) + AtInstant(rest, t)
  {
    assert ([x] + rest)[1..] == rest;
  }

  /** The sort is stable: articles with the same date keep their relative
      order, as Python's `sort` guarantees with `reverse=True` too. */
  lemma {:induction false} SortIsStable(s: seq<Article>, t: int)
    ensures AtInstant(SortNewestFirst(s), t) == AtInstant(s, t)
    decreases |s|
  {
    if |s| > 0 {
      var init, last := s[..|s| - 1], s[|s| - 1];
      assert s == init + [last];
      SortIsStable(init, t);
      InsertStable(last, SortNewestFirst(init), t);
      AtInstantSnoc(init, last, t);
    }
  }

  lemma {:induction false} SortKeepsDistinctLinks(s: seq<Article>)
    requires DistinctLinks(s)
    ensures DistinctLinks(SortNewestFirst(s))
    decreases |s|
  {
    if |s| > 0 {
      var init, last := s[..|s| - 1], s[|s| - 1];
      SortKeepsDistinctLinks(init);
      assert last.link !in Links(init);
      InsertKeepsDistinctLinks(last, SortNewestFirst(init));
    }
  }

  lemma {:induction false} InsertKeepsDistinctLinks(a: Article, s: seq<Article>)
    requires DistinctLinks(s) && a.link !in Links(s)
    ensures DistinctLinks(Insert(a, s))
    decreases |s|
  {
    if |s| == 0 || s[0].date.instant < a.date.instant {
      var r := [a] + s;
      forall i, j | 0 <= i < j < |r| ensures r[i].link != r[j].link {
        if i == 0 { assert r[j] == s[j - 1]; }
      }
    } else {
      var tail := Insert(a, s[1..]);
      assert a.link !in Links(s[1..]);
      InsertKeepsDistinctLinks(a, s[1..]);
      var r := [s[0]] + tail;
      InsertLinks(a, s[1..]);
      assert s[0].link !in Links(tail);
      forall i, j | 0 <= i < j < |r| ensures r[i].link != r[j].link {
        if i == 0 { assert r[j] == tail[j - 1]; }
      }
    }
  }

  lemma SortedElementsCome(s: seq<Article>, i: int)
    requires 0 <= i < |SortNewestFirst(s)|
    ensures SortNewestFirst(s)[i] in s
  {
    var r := SortNewestFirst(s);
    assert r[i] in multiset(r);
  }

  // ----- the selection -------------------------------------------------------------

  /** `fetch_source_articles`: the collected articles, newest first, cut to
      `DAILY_POST_LIMIT`. */
  function SelectArticles(pages: seq<Page<Post>>, ledger: set<string>, cfg: Config): (r: seq<Article>)
    requires ValidConfig(cfg)
    ensures |r| <= cfg.dailyLimit
    ensures NewestFirst(r)
  {
    Take(SortNewestFirst(Candidates(pages, ledger, cfg)), cfg.dailyLimit)
  }

  /** What a day's selection promises: no more than the limit, each with a
      non-empty title and canonical link that is not yet in the ledger
      (unless forced), no link twice, newest first; every link comes from a
      reachable entry, and when the limit was not reached and no entry
      raised, every eligible reachable entry is among them. */
  lemma SelectionGuarantees(pages: seq<Page<Post>>, ledger: set<string>, cfg: Config)
    requires ValidConfig(cfg)
    ensures var r := SelectArticles(pages, ledger, cfg);
            var stream := Stream(ReadPages(pages), cfg.maxPages);
            && |r| <= cfg.dailyLimit
            && (forall i :: 0 <= i < |r| ==> Admissible(r[i], {}, ledger, cfg))
            && DistinctLinks(r)
            && NewestFirst(r)
            && Links(r) <= EligibleKeys(stream, {}, ledger, cfg)
            && (|r| < cfg.dailyLimit && NoFault(stream) ==> Links(r) == EligibleKeys(stream, {}, ledger, cfg))
  {
    var stream := Stream(ReadPages(pages), cfg.maxPages);
    var all := Collect(stream, {}, ledger, cfg);
    var c := Candidates(pages, ledger, cfg);
    CandidatesAreStreamPrefix(pages, ledger, cfg);
    assert c == Take(all, cfg.dailyLimit);
    assert forall i :: 0 <= i < |c| ==> c[i] == all[i];
    assert DistinctLinks(c);
    assert Links(c) <= Links(all);
    var sorted := SortNewestFirst(c);
    assert |sorted| == |c| by { assert |multiset(sorted)| == |multiset(c)|; }
    SortKeepsDistinctLinks(c);
    forall i | 0 <= i < |sorted| ensures Admissible(sorted[i], {}, ledger, cfg) {
      SortedElementsCome(c, i);
    }
    var r := SelectArticles(pages, ledger, cfg);
    assert r == sorted;
    if |r| < cfg.dailyLimit {
      assert c == all;
    }
  }

  // ----- where the scan stops --------------------------------------------------------

  lemma {:induction false} ScanStopsAt(pages: seq<Page<Entry>>, i: nat, budget: nat, ledger: set<string>,
                                       cfg: Config, st: Scan)
    requires i < |pages| && (pages[i].Stop? || pages[i].posts == [])
    ensures ScanPages(pages, budget, ledger, cfg, st) == ScanPages(pages[..i], budget, ledger, cfg, st)
    decreases i
  {
    if i > 0 && budget > 0 {
      assert pages[..i][0] == pages[0];
      if pages[0].Posts? && pages[0].posts != [] {
        assert pages[..i][1..] == pages[1..][..i - 1];
        var next := ScanPosts(pages[0].posts, ledger, cfg, st);
        ScanStopsAt(pages[1..], i - 1, budget - 1, ledger, cfg, next);
      }
    }
  }

  lemma {:induction false} ScanWithinBudget(pages: seq<Page<Entry>>, budget: nat, ledger: set<string>,
                                            cfg: Config, st: Scan)
    requires budget <= |pages|
    ensures ScanPages(pages, budget, ledger, cfg, st) == ScanPages(pages[..budget], budget, ledger, cfg, st)
    decreases budget
  {
    if budget > 0 {
      assert pages[..budget][0] == pages[0];
      if pages[0].Posts? && pages[0].posts != [] {
        assert pages[..budget][1..] == pages[1..][..budget - 1];
        var next := ScanPosts(pages[0].posts, ledger, cfg, st);
        ScanWithinBudget(pages[1..], budget - 1, ledger, cfg, next);
      }
    }
  }

  /** A page answering 400, failing or coming back empty ends the scan: no
      later page is examined. */
  lemma LaterPagesIgnored(pages: seq<Page<Post>>, i: nat, ledger: set<string>, cfg: Config)
    requires ValidConfig(cfg)
    requires i < |pages| && (pages[i].Stop? || pages[i].posts == [])
    ensures SelectArticles(pages, ledger, cfg) == SelectArticles(pages[..i], ledger, cfg)
  {
    var read := ReadPages(pages);
    assert ReadPages(pages[..i]) == read[..i];
    assert read[i].Stop? || read[i].posts == [];
    ScanStopsAt(read, i, cfg.maxPages, ledger, cfg, Scan([], {}, false));
  }

  /** Only the first `SOURCE_SCAN_MAX_PAGES` pages are requested. */
  lemma PagesPastBudgetIgnored(pages: seq<Page<Post>>, ledger: set<string>, cfg: Config)
    requires ValidConfig(cfg) && cfg.maxPages <= |pages|
    ensures SelectArticles(pages, ledger, cfg) == SelectArticles(pages[..cfg.maxPages], ledger, cfg)
  {
    var read := ReadPages(pages);
    assert ReadPages(pages[..cfg.maxPages]) == read[..cfg.maxPages];
    ScanWithinBudget(read, cfg.maxPages, ledger, cfg, Scan([], {}, false));
  }
}
