/** One article through `process_article`, and the `run` loop over the
    selected articles. Network calls are services supplied from outside:
    fetching and parsing the article page, writing an element back out as
    HTML, the HTML-to-text converter, the translator, the image search and
    upload, and the publishing request. */
module Pipeline {
  import opened Basics
  import opened SourceUrl
  import opened DomainRepair
  import opened Calendar
  import opened IsoFormat
  import opened SourceTime
  import opened Selection
  import opened Translation
  import opened Extraction
  import Ledger

  /** The uploaded featured image: its media id and public URL. */
  datatype Media = Media(id: int, sourceUrl: string)

  /** The fields sent to the posts endpoint. */
  datatype PostRequest = PostRequest(title: string, content: string, featuredMedia: int, date: string, dateGmt: string)

  /** How a call to a function that catches its own failures ends: with a
      value, with a failure it catches (returning None or False), or with an
      exception that escapes it. The handlers of `upload_media` and
      `post_to_wordpress` read `e.response.text`; when the request got no
      response (a connection error) or the reply was not JSON, `e.response`
      is None and the handler itself raises AttributeError. */
  datatype Call<T> = Done(value: T) | Failed | Raised

  datatype Services = Services(
    fetchPage: string -> Option<seq<Node>>,
    render: Node -> string,
    toPlain: string -> Option<string>,
    translate: string -> Option<string>,
    media: string -> Call<Media>,
    publish: PostRequest -> Call<()>)

  /** How `process_article` ends: skipped for want of a body, the post
      refused, the post published, or an exception escaping. None of these is
      caught, and each ends the run: an image upload or a publishing request
      whose handler raises, the OverflowError of `to_wordpress_dates`, and
      the TypeError of saving a ledger that holds values other than links. */
  datatype Outcome = Skipped | Rejected(request: PostRequest) | Published(request: PostRequest) | Crashed

  // ----- the post body ------------------------------------------------------------

  /** `text.replace("\n", "<br>\n")` */
  function BrLines(s: string): (r: string)
    ensures '\n' !in s ==> r == s
    decreases |s|
  {
    if |s| == 0 then [] else (if s[0] == '\n' then "<br>\n" else [s[0]]) + BrLines(s[1..])
  }

  /** A piece without '<' at the start of the output was copied from the input. */
  lemma {:induction false} BrPrefixCopied(s: string, w: string)
    requires '<' !in w
    ensures StartsWith(BrLines(s), w) ==> StartsWith(s, w)
    decreases |s|
  {
    if |w| > 0 && |s| > 0 {
      var out := BrLines(s);
      if s[0] == '\n' {
        assert out[0] == '<';
      } else if StartsWith(out, w) {
        assert out == [s[0]] + BrLines(s[1..]);
        assert BrLines(s[1..])[..|w| - 1] == out[1..|w|] == w[1..];
        BrPrefixCopied(s[1..], w[1..]);
        assert s == [s[0]] + s[1..];
        assert s[..|w|] == [s[0]] + s[1..][..|w| - 1];
      }
    }
  }

  /** Line-break markup cannot create a link the text did not hold. */
  lemma {:induction false} BrLinesAddsNoLink(s: string, q: string)
    requires SingleH(q) && '<' !in q && !Contains(s, q)
    ensures !Contains(BrLines(s), q)
    decreases |s|
  {
    if |s| > 0 {
      var rest := BrLines(s[1..]);
      BrLinesAddsNoLink(s[1..], q);
      if s[0] == '\n' {
        NoOccurrenceFromReplacement("<br>\n", rest, q);
      } else {
        var out := [s[0]] + rest;
        if StartsWith(out, q) {
          assert rest[..|q| - 1] == out[1..|q|] == q[1..];
          BrPrefixCopied(s[1..], q[1..]);
          assert false;
        }
        NoOccurrenceFromReplacement([s[0]], rest, q);
      }
    }
  }

  /** The translated body as it goes into the post: domains repaired, then
      line breaks marked up. No garbled source link survives either step. */
  function PostBody(translated: string): (r: string)
    ensures NoneOccur(r, KoPatterns) && NoneOccur(r, JpPatterns)
  {
    var repaired := RepairDomains(translated);
    PatternShapes();
    NoAngleInPatterns();
    BodyHoldsNoLink(repaired);
    BrLines(repaired)
  }

  lemma NoAngleInPatterns()
    ensures forall q :: q in KoPatterns ==> '<' !in q
    ensures forall q :: q in JpPatterns ==> '<' !in q
  {
  }

  lemma BodyHoldsNoLink(repaired: string)
    requires NoneOccur(repaired, KoPatterns) && NoneOccur(repaired, JpPatterns)
    requires forall q :: q in KoPatterns ==> SingleH(q) && '<' !in q
    requires forall q :: q in JpPatterns ==> SingleH(q) && '<' !in q
    ensures NoneOccur(BrLines(repaired), KoPatterns) && NoneOccur(BrLines(repaired), JpPatterns)
  {
    forall q | q in KoPatterns ensures !Contains(BrLines(repaired), q) {
      BrLinesAddsNoLink(repaired, q);
    }
    forall q | q in JpPatterns ensures !Contains(BrLines(repaired), q) {
      BrLinesAddsNoLink(repaired, q);
    }
  }

  /** The fixed markup of a post, the pieces between the parts that vary.
      The model takes it as a value; `PostLayout` is the markup the script
      writes. */
  datatype Layout = Layout(
    figureOpen: string,   // opens the featured-image block, up to the image URL
    imageAlt: string,     // between the image URL and its alt text
    figureClose: string,  // after the alt text, closing the block
    articleOpen: string,  // the article container and the byline box, up to the date
    dateClose: string,    // after the date, up to the canonical source link
    bylineClose: string,  // after that link, closing the byline box
    footerOpen: string,   // closes the article container; the footer up to the source link
    footerMid: string,    // between that link and the original title
    footerClose: string)  // after the title

  /** The tags that open the image block and the article container. They
      are constants of their own so that a proof can read their characters
      without unfolding the long style strings that follow them. */
  const FigureTag: string := "<figure"
  const DivTag: string := "<div"

  const PostLayout: Layout := Layout(
    FigureTag + " style=\"margin: 0 0 30px 0;\"><img src=\"",
    "\" alt=\"",
    "\" style=\"width:100%; height:auto; display:block;\" /></figure>\n\n",
    DivTag + " class='pronews-kr-article' style='font-family: \"Noto Sans KR\", sans-serif; line-height:1.85; font-size:17px;'>"
      + "<div style='border-top:2px solid #111; border-bottom:1px solid #ddd; padding:10px 0; margin:0 0 24px 0;'>"
      + "<p style='margin:0; color:#555; font-size:13px;'>원문 게시시각: ",
    " (JST)</p><p style='margin:6px 0 0 0; color:#111; font-size:13px;'>출처: <a href='",
    "' target='_blank' rel='noopener'>jp.pronews.com</a></p></div>",
    "</div>\n\n<hr style='margin: 40px 0 20px 0;'>\n<p style='font-size: 14px; color: #666;'>"
      + "\U{2139}\U{FE0F} <strong>원문 기사 보기:</strong> <a href='",
    "' target='_blank' rel='noopener'>",
    "</a></p>")

  /** The featured-image block and the article container open differently,
      so a post's first characters tell whether it carries an image. */
  predicate ValidLayout(l: Layout) {
    1 < |l.figureOpen| && 1 < |l.articleOpen| && l.figureOpen[1] != l.articleOpen[1]
  }

  lemma PostLayoutValid()
    ensures ValidLayout(PostLayout)
  {
    assert PostLayout.figureOpen[1] == FigureTag[1] == 'f';
    assert PostLayout.articleOpen[1] == DivTag[1] == 'd';
  }

  /** The featured-image block, present only when an uploaded image URL exists. */
  function Figure(l: Layout, imageUrl: string, titleKo: string): string {
    if imageUrl == [] then [] else l.figureOpen + imageUrl + l.imageAlt + titleKo + l.figureClose
  }

  /** The article container and the byline: the source publication time to
      the minute and the canonical source link. */
  function Head(l: Layout, dateText: string, link: string): string {
    l.articleOpen + dateText + l.dateClose + link + l.bylineClose
  }

  /** The end of the article container and the link back to the source
      article under its original title. */
  function Footer(l: Layout, link: string, title: string): string {
    l.footerOpen + link + l.footerMid + title + l.footerClose
  }

  lemma StartsWithAppend(a: string, b: string, p: string)
    requires StartsWith(a, p)
    ensures StartsWith(a + b, p)
  {
    assert (a + b)[..|p|] == a[..|p|];
  }

  /** A post that opens with the article container has no figure before it. */
  lemma OpeningsDiffer(l: Layout, c: string)
    requires ValidLayout(l) && StartsWith(c, l.articleOpen)
    ensures !StartsWith(c, l.figureOpen)
  {
    assert c[..|l.articleOpen|][1] == c[1];
    if |l.figureOpen| <= |c| {
      assert c[..|l.figureOpen|][1] == c[1];
    }
  }

  /** `final_content` of `process_article`: the figure exactly when there is
      an image URL, then the article container holding the byline with the
      canonical link and the repaired body, then the footer. */
  function AssembleContent(l: Layout, imageUrl: string, titleKo: string, dateText: string, link: string,
                           translated: string, title: string): (r: string)
    requires ValidLayout(l)
    ensures imageUrl != [] <==> StartsWith(r, l.figureOpen)
    ensures Contains(r, PostBody(translated))
  {
    var figure := Figure(l, imageUrl, titleKo);
    var head := Head(l, dateText, link);
    var body := PostBody(translated);
    var foot := Footer(l, link, title);
    FigureShape(l, imageUrl, titleKo);
    HeadShape(l, dateText, link);
    ContentShape(l, figure, head, body, foot);
    figure + head + body + foot
  }

  lemma HeadShape(l: Layout, dateText: string, link: string)
    ensures StartsWith(Head(l, dateText, link), l.articleOpen)
  {
    var h := Head(l, dateText, link);
    assert h == l.articleOpen + (dateText + l.dateClose + link + l.bylineClose);
  }

  lemma ContentShape(l: Layout, figure: string, head: string, body: string, foot: string)
    requires ValidLayout(l)
    requires figure == [] || StartsWith(figure, l.figureOpen)
    requires StartsWith(head, l.articleOpen)
    ensures var r := figure + head + body + foot;
            && (figure != [] <==> StartsWith(r, l.figureOpen))
            && Contains(r, body)
  {
    var r := figure + head + body + foot;
    var lead := figure + head;
    assert r[|lead|..|lead| + |body|] == body;
    OccurrenceGivesContains(r, body, |lead|);
    if figure == [] {
      assert r == head + (body + foot);
      StartsWithAppend(head, body + foot, l.articleOpen);
      OpeningsDiffer(l, r);
    } else {
      assert r == figure + (head + body + foot);
      StartsWithAppend(figure, head + body + foot, l.figureOpen);
    }
  }

  lemma FigureShape(l: Layout, imageUrl: string, titleKo: string)
    ensures imageUrl == [] <==> Figure(l, imageUrl, titleKo) == []
    ensures imageUrl != [] ==> StartsWith(Figure(l, imageUrl, titleKo), l.figureOpen)
  {
    if imageUrl != [] {
      var f := Figure(l, imageUrl, titleKo);
      assert f == l.figureOpen + (imageUrl + l.imageAlt + titleKo + l.figureClose);
    }
  }

  /** The body-container HTML `fetch_full_content` returns; None when the
      page cannot be fetched or has no container. */
  function FetchFullContent(link: string, sv: Services): (r: Option<string>)
    ensures r.Some? <==> sv.fetchPage(link).Some? && ChooseContainer(sv.fetchPage(link).value).Some?
  {
    match sv.fetchPage(link)
    case None => None
    case Some(doc) =>
      match ExtractBody(doc)
      case None => None
      case Some(body) => Some(sv.render(body))
  }

  // ----- one article -------------------------------------------------------------

  /** `final_content` for an article whose body HTML is html. */
  function ArticleContent(a: Article, html: string, sv: Services, l: Layout): (r: string)
    requires IsSourceTime(a.date) && ValidLayout(l)
    ensures var media := sv.media(a.link);
            && (media.Done? && media.value.sourceUrl != [] <==> StartsWith(r, l.figureOpen))
            && Contains(r, PostBody(TranslateText(html, sv.toPlain, sv.translate)))
  {
    var media := sv.media(a.link);
    var imageUrl := if media.Done? then media.value.sourceUrl else [];
    var dateText := FormatMinutes(CivilOf(LocalSeconds(a.date)));
    AssembleContent(l, imageUrl, TranslateText(a.title, sv.toPlain, sv.translate), dateText,
                    NormalizeSourceUrl(a.link), TranslateText(html, sv.toPlain, sv.translate), a.title)
  }

  /** `featured_media`: the uploaded image's id, or 0 without one. */
  function FeaturedMedia(media: Call<Media>): int {
    if media.Done? then media.value.id else 0
  }

  /** The post sent for an article whose body HTML is html: title and body
      through the translator, the featured image when one was uploaded, and
      the date pair of `to_wordpress_dates`. None is an exception that ends
      the run: the image upload's handler raising, or the OverflowError of
      `to_wordpress_dates` for an instant before year 1. */
  function BuildRequest(a: Article, html: string, sv: Services, l: Layout): (r: Option<PostRequest>)
    requires IsSourceTime(a.date) && ValidLayout(l)
    ensures r.None? <==> sv.media(a.link).Raised? || a.date.instant < 0
    ensures r.Some? ==>
              var media := sv.media(a.link);
              && r.value.title == TranslateText(a.title, sv.toPlain, sv.translate)
              && (r.value.date, r.value.dateGmt) == ToWordPressDates(a.date).value
              && r.value.featuredMedia == FeaturedMedia(media)
              && (media.Done? && media.value.sourceUrl != [] <==> StartsWith(r.value.content, l.figureOpen))
              && Contains(r.value.content, PostBody(TranslateText(html, sv.toPlain, sv.translate)))
  {
    var dates := ToWordPressDates(a.date);
    if sv.media(a.link).Raised? || dates.None? then None
    else
      Some(PostRequest(TranslateText(a.title, sv.toPlain, sv.translate), ArticleContent(a, html, sv, l),
                       FeaturedMedia(sv.media(a.link)), dates.value.0, dates.value.1))
  }

  /** `posted_articles.add(...)`, skipped when updates are forced. */
  function Record(ledger: set<string>, link: string, cfg: Config): (r: set<string>)
    ensures ledger <= r && r - ledger <= {NormalizeSourceUrl(link)}
    ensures cfg.forceUpdate ==> r == ledger
    ensures !cfg.forceUpdate ==> NormalizeSourceUrl(link) in r
  {
    if cfg.forceUpdate then ledger else ledger + {NormalizeSourceUrl(link)}
  }

  datatype Step = Step(outcome: Outcome, ledger: set<string>)

  /** `process_article`; `stray` says whether the loaded ledger holds values
      other than links, so that saving it raises (`Ledger.Save`). The ledger
      gains the canonical link of the article, and only that, when the post
      was published and updates are not forced; it never loses an entry. The
      article crashes exactly when there is a body and the image upload, the
      date conversion, the publishing request or the saving raises. */
  function ProcessArticle(a: Article, ledger: set<string>, stray: bool, cfg: Config, sv: Services, l: Layout): (r: Step)
    requires IsSourceTime(a.date) && ValidLayout(l)
    ensures ledger <= r.ledger
    ensures r.ledger - ledger <= {NormalizeSourceUrl(a.link)}
    ensures r.ledger != ledger ==> !cfg.forceUpdate && (r.outcome.Published? || (r.outcome.Crashed? && stray))
    ensures r.outcome.Published? && !cfg.forceUpdate ==> NormalizeSourceUrl(a.link) in r.ledger && !stray
    ensures var html := FetchFullContent(a.link, sv);
            && (r.outcome.Skipped? <==> html.None? || html.value == [])
            && (!r.outcome.Skipped? ==>
                  var b := BuildRequest(a, html.value, sv, l);
                  r.outcome.Crashed? <==>
                    || b.None?
                    || sv.publish(b.value).Raised?
                    || (sv.publish(b.value).Done? && !cfg.forceUpdate && stray))
  {
    var html := FetchFullContent(a.link, sv);
    if html.None? || html.value == [] then Step(Skipped, ledger)
    else
      match BuildRequest(a, html.value, sv, l)
      case None => Step(Crashed, ledger)
      case Some(request) =>
        match sv.publish(request)
        case Raised => Step(Crashed, ledger)
        case Failed => Step(Rejected(request), ledger)
        case Done(_) =>
          if !cfg.forceUpdate && stray then Step(Crashed, Record(ledger, a.link, cfg))
          else Step(Published(request), Record(ledger, a.link, cfg))
  }

  /** A post that was sent is the one built from the fetched body; it counts
      as published exactly when the endpoint accepted it, and as refused
      exactly when `post_to_wordpress` caught the failure. */
  lemma SentRequest(a: Article, ledger: set<string>, stray: bool, cfg: Config, sv: Services, l: Layout)
    requires IsSourceTime(a.date) && ValidLayout(l)
    requires var o := ProcessArticle(a, ledger, stray, cfg, sv, l).outcome; o.Published? || o.Rejected?
    ensures var o := ProcessArticle(a, ledger, stray, cfg, sv, l).outcome;
            var html := FetchFullContent(a.link, sv);
            && html.Some? && html.value != []
            && BuildRequest(a, html.value, sv, l) == Some(o.request)
            && (o.Published? <==> sv.publish(o.request).Done?)
            && (o.Rejected? <==> sv.publish(o.request).Failed?)
  {
    var html := FetchFullContent(a.link, sv);
    var step := ProcessArticle(a, ledger, stray, cfg, sv, l);
    assert html.Some? && html.value != [];
    var b := BuildRequest(a, html.value, sv, l);
    assert b.Some?;
    assert step.outcome.request == b.value;
  }

  /** With no body to translate nothing is posted and the ledger is untouched. */
  lemma NoBodyNoPost(a: Article, ledger: set<string>, stray: bool, cfg: Config, sv: Services, l: Layout)
    requires IsSourceTime(a.date) && ValidLayout(l)
    requires sv.fetchPage(a.link).None? || ChooseContainer(sv.fetchPage(a.link).value).None?
    ensures ProcessArticle(a, ledger, stray, cfg, sv, l) == Step(Skipped, ledger)
  {
  }

  // ----- the run -----------------------------------------------------------------

  datatype Report = Report(outcomes: seq<Outcome>, ledger: set<string>)

  /** The keys a run may add: the canonical links of its articles. */
  function KeysOf(articles: seq<Article>): set<string> {
    set a | a in articles :: NormalizeSourceUrl(a.link)
  }

  /** The loop of `run` over the selected articles: one outcome per article
      in order, ending early only at an article that crashes. The ledger is
      `posted_articles` when the loop ends. */
  function Run(articles: seq<Article>, ledger: set<string>, stray: bool, cfg: Config, sv: Services, l: Layout): (r: Report)
    requires forall i :: 0 <= i < |articles| ==> IsSourceTime(articles[i].date)
    requires ValidLayout(l)
    ensures ledger <= r.ledger
    ensures cfg.forceUpdate ==> r.ledger == ledger
    ensures |r.outcomes| <= |articles| && StopsOnlyAtCrash(r.outcomes, |articles|)
    ensures !cfg.forceUpdate ==> PublishedRecorded(articles, r.outcomes, r.ledger)
    decreases |articles|
  {
    if |articles| == 0 then Report([], ledger)
    else
      var step := ProcessArticle(articles[0], ledger, stray, cfg, sv, l);
      if step.outcome.Crashed? then Report([Crashed], step.ledger)
      else
        var rest := Run(articles[1..], step.ledger, stray, cfg, sv, l);
        StopsCons(step.outcome, rest.outcomes, |articles|);
        if cfg.forceUpdate then Report([step.outcome] + rest.outcomes, rest.ledger)
        else
          PublishedRecordedCons(articles, step.outcome, rest.outcomes, rest.ledger);
          Report([step.outcome] + rest.outcomes, rest.ledger)
  }

  /** Outcomes of a run over n articles: the run stops short only at a
      crash, and nothing before the last outcome crashed. */
  predicate StopsOnlyAtCrash(outcomes: seq<Outcome>, n: int) {
    && (|outcomes| < n ==> |outcomes| > 0 && outcomes[|outcomes| - 1].Crashed?)
    && forall i :: 0 <= i < |outcomes| - 1 ==> !outcomes[i].Crashed?
  }

  lemma StopsCons(o: Outcome, outcomes: seq<Outcome>, n: int)
    requires !o.Crashed? && StopsOnlyAtCrash(outcomes, n - 1)
    ensures StopsOnlyAtCrash([o] + outcomes, n)
  {
    var all := [o] + outcomes;
    if |outcomes| > 0 {
      assert all[|all| - 1] == outcomes[|outcomes| - 1];
    }
    forall i | 0 <= i < |all| - 1 ensures !all[i].Crashed? {
      if i > 0 {
        assert all[i] == outcomes[i - 1];
      }
    }
  }

  /** Every article whose outcome is Published has its canonical link in the ledger. */
  predicate PublishedRecorded(articles: seq<Article>, outcomes: seq<Outcome>, ledger: set<string>)
    requires |outcomes| <= |articles|
  {
    forall i :: 0 <= i < |outcomes| && outcomes[i].Published? ==> NormalizeSourceUrl(articles[i].link) in ledger
  }

  lemma PublishedRecordedCons(articles: seq<Article>, o: Outcome, outcomes: seq<Outcome>, ledger: set<string>)
    requires 0 < |articles| && |outcomes| < |articles|
    requires o.Published? ==> NormalizeSourceUrl(articles[0].link) in ledger
    requires PublishedRecorded(articles[1..], outcomes, ledger)
    ensures PublishedRecorded(articles, [o] + outcomes, ledger)
  {
    var all := [o] + outcomes;
    forall i | 0 <= i < |all| && all[i].Published?
      ensures NormalizeSourceUrl(articles[i].link) in ledger
    {
      if i > 0 {
        assert all[i] == outcomes[i - 1] && articles[1..][i - 1] == articles[i];
      }
    }
  }

  lemma KeysOfCons(articles: seq<Article>)
    requires |articles| > 0
    ensures KeysOf(articles) == {NormalizeSourceUrl(articles[0].link)} + KeysOf(articles[1..])
  {
    assert articles == [articles[0]] + articles[1..];
  }

  /** A run adds to the ledger nothing but canonical links of its articles. */
  lemma {:induction false} RunAddsOnlyKeys(articles: seq<Article>, ledger: set<string>, stray: bool, cfg: Config, sv: Services, l: Layout)
    requires forall i :: 0 <= i < |articles| ==> IsSourceTime(articles[i].date)
    requires ValidLayout(l)
    ensures Run(articles, ledger, stray, cfg, sv, l).ledger - ledger <= KeysOf(articles)
    decreases |articles|
  {
    if |articles| > 0 {
      var step := ProcessArticle(articles[0], ledger, stray, cfg, sv, l);
      KeysOfCons(articles);
      assert step.ledger - ledger <= {NormalizeSourceUrl(articles[0].link)};
      if !step.outcome.Crashed? {
        var rest := Run(articles[1..], step.ledger, stray, cfg, sv, l);
        assert Run(articles, ledger, stray, cfg, sv, l).ledger == rest.ledger;
        RunAddsOnlyKeys(articles[1..], step.ledger, stray, cfg, sv, l);
      }
    }
  }

  /** A selected article's link is already canonical; when its host does not
      still begin with "www." after one pass, re-normalising changes nothing,
      so the key recorded after publishing is the very link the next
      selection checks, and the article is not picked again. */
  lemma PublishedNotSelectedAgain(articles: seq<Article>, ledger: set<string>, stray: bool, cfg: Config, sv: Services,
                                  l: Layout, k: int, raw: string, pages: seq<Page<Post>>)
    requires forall i :: 0 <= i < |articles| ==> IsSourceTime(articles[i].date)
    requires ValidLayout(l)
    requires ValidConfig(cfg) && !cfg.forceUpdate
    requires 0 <= k < |Run(articles, ledger, stray, cfg, sv, l).outcomes| && Run(articles, ledger, stray, cfg, sv, l).outcomes[k].Published?
    requires articles[k].link == NormalizeSourceUrl(raw)
    requires raw == [] || !StartsWith(Parse(NormalizeSourceUrl(raw)).netloc, "www.")
    ensures var next := SelectArticles(pages, Run(articles, ledger, stray, cfg, sv, l).ledger, cfg);
            forall i :: 0 <= i < |next| ==> next[i].link != articles[k].link
  {
    NormalizeIdempotent(raw);
    SelectionGuarantees(pages, Run(articles, ledger, stray, cfg, sv, l).ledger, cfg);
  }

  /** The file `save_posted_articles` writes after a run's last publish (a
      save of the run's final ledger, as each save follows an `add`): unless
      the ledger holds non-links, loading it gives exactly the run's ledger,
      the one `PublishedNotSelectedAgain` hands to the next selection. It
      holds the key of every article published in the run. */
  method SaveRunLedger(articles: seq<Article>, ledger: set<string>, stray: bool, cfg: Config, sv: Services, l: Layout)
    returns (f: Ledger.LedgerFile, raised: bool)
    requires forall i :: 0 <= i < |articles| ==> IsSourceTime(articles[i].date)
    requires ValidLayout(l)
    requires Run(articles, ledger, stray, cfg, sv, l).ledger != {}
    ensures raised <==> stray
    ensures !raised ==> Ledger.Load(f) == Ledger.Posted(Run(articles, ledger, stray, cfg, sv, l).ledger, false)
    ensures !raised && !cfg.forceUpdate ==>
              var r := Run(articles, ledger, stray, cfg, sv, l);
              forall i :: 0 <= i < |r.outcomes| && r.outcomes[i].Published? ==>
                NormalizeSourceUrl(articles[i].link) in Ledger.Load(f).links
  {
    var r := Run(articles, ledger, stray, cfg, sv, l);
    f, raised := Ledger.Save(Ledger.Posted(r.ledger, stray));
  }

  /** Without that condition the recorded key can differ from the link the
      selection checks: a source host spelled "www.www.example" is selected as
      "www.example" but recorded as "example", so the ledger never stops it
      from being selected again. */
  lemma DoubledWwwIsRecordedUnderAnotherKey(name: string, path: string)
    requires IsLower(name) && HostShape(name)
    requires name !in SourceHostAliases && "www." + name !in SourceHostAliases
    requires |path| > 0 && path[0] == '/' && !IsSpace(path[|path| - 1])
    ensures var selected := NormalizeSourceUrl("https://" + ("www." + ("www." + name)) + path);
            NormalizeSourceUrl(selected) != selected
  {
    DoubleWwwKeyChangesOnRenormalising(name, path);
    var selected := "https://" + ("www." + name) + path;
    assert |NormalizeSourceUrl(selected)| < |selected|;
  }
}
