# pronews translation pipeline — a Dafny model

`translate_and_post.py` republishes articles from the Japanese news site
jp.pronews.com on a Korean WordPress site. It reads the site's post-listing
API page by page and picks up to `DAILY_POST_LIMIT` articles that are not
yet in its "already posted" ledger, newest first. For each article it
scrapes the body container from the page, strips scripts and ad blocks, and
translates title and body through an HTML-to-text converter and a
translator, cutting long text into 4000-character pieces. It then repairs
source links the translator garbled and assembles the post HTML: a
featured image, a byline with the source time and the canonical link, the
body, and a footer linking back. The post is published with a local and a
UTC date. After a successful post the article's canonical link goes into
the ledger file, unless `FORCE_UPDATE` is set.

This project models the decision rules of that script as pure Dafny
functions and proves what they guarantee. The modules:

- `Basics` (basics.dfy): the string operations the script relies on — `startswith`, `in`, `lower`, `strip`, `lstrip('/')` — and an Option type for None-or-value results.
- `SourceUrl` (source_url.dfy): `normalize_source_url`, the canonical link that serves as the ledger key.
  - A URL is taken apart only as far as `urlparse` does for this use: scheme, network location, and the rest, which is carried through unchanged.
  - The host is lower-cased, loses one leading "www.", and the alias spellings map to jp.pronews.com.
- `DomainRepair` (domain_repair.dfy): `normalize_pronews_domains_in_text`.
  - Each `re.sub` is modelled as a left-to-right scan over the finite list of strings its pattern matches.
- `Calendar`, `IsoFormat`, `SourceTime` (calendar.dfy, iso_format.dfy, source_time.dfy): the `datetime` arithmetic the script uses.
  - Instants are whole seconds from 0001-01-01T00:00:00 UTC, with a fixed offset for the wall clock.
  - The modules cover the proleptic Gregorian calendar, the two `strftime` layouts, the `fromisoformat` subset the API sends, `parse_source_datetime` and `to_wordpress_dates`.
- `Selection` (selection.dfy): `fetch_source_articles`.
  - Listing pages come in as data; a page is either a stop (status 400, another error, or a failed request) or a list of posts.
  - The loop's two limits and its breaks are modelled.
  - The stable newest-first sort is an insertion sort.
- `Extraction` (extraction.dfy): the container choice and cleaning of `fetch_full_content`.
  - The parsed page is a forest of element and text nodes; `find` is a document-order search.
  - The removal passes delete matching subtrees.
- `Translation` (translation.dfy): `translate_text` — chunking, translating each piece in order, joining by a blank line, and falling back to the input on any failure.
- `Ledger` (ledger.dfy): `load_posted_articles` and `save_posted_articles`.
  - The file is modelled by the JSON document it holds.
  - Saving writes the links sorted by code point.
- `Pipeline` (pipeline.dfy): `process_article` and the loop of `run`.
  - Network calls are a `Services` record of functions: fetching the page, writing an element out as HTML, the text converter, the translator, image search plus upload, and publishing.
  - The image upload and the publishing request end in one of three ways: a value, a failure the script catches, or an exception that escapes. The last happens when an `except` handler reads `e.response.text` and the exception carries no response: a connection error, or a reply that is not JSON.
  - A ledger holding numbers, booleans or null beside its links makes the first save raise TypeError after the file was emptied (`Ledger.Save`). Every such exception ends the run.
  - The fixed HTML of a post is a `Layout` record. `PostLayout` holds the script's exact markup.

The clock is an input. Every listing entry carries the reading
`datetime.now(SOURCE_TZ)` gives when the loop parses that entry's date, so
entries whose dates cannot be read are dated by their own, successive
readings. Readings are whole seconds. When two readings fall in different
seconds, the newest-first sort puts the later one first.

The ledger key is the article's link normalised once more: the selected
link is already normalised, and `process_article` normalises it again. Within
the URL model here, the two differ only when the source host begins with
"www.www.", because each pass removes only one "www.". (One more case lies
outside the URL model; see `SourceUrl.Parse` under "Left out".)
`NormalizeIdempotent` states the condition, and
`DoubledWwwIsRecordedUnderAnotherKey` shows the consequence: such an
article is recorded under a key the next selection never checks.

## Model

| member | source | states |
|---|---|---|
| SourceUrl.WithScheme | translate_and_post.py:70-72 | The string handed to `urlparse` always starts with an http or https scheme. |
| SourceUrl.RenderParse | translate_and_post.py:74-82 | Writing a parsed http(s) link back out gives the same string, within the URL model here: scheme, network location and an uninterpreted rest. The `urlsplit` details listed under "Left out" are where Python differs. |
| SourceUrl.ParseRender | translate_and_post.py:74-82 | Parsing a written-out well-formed URL gives back the same scheme, network location and rest. |
| SourceUrl.CanonicalHost | translate_and_post.py:75-80 | The host rule yields a lower-case host that is never an alias spelling. It keeps a host free of '/', '?' and '#', and keeps it free of trailing whitespace. |
| SourceUrl.AliasHostsBecomeSourceHost | translate_and_post.py:75-80 | Every alias spelling ("pronews.jp", "www.pronews.jp", "ko.pronews.com", in any letter case) becomes "jp.pronews.com". |
| SourceUrl.NormalizeSourceUrl | translate_and_post.py:65-83 | The key is empty exactly when the input is empty; otherwise it starts with http:// or https://. |
| SourceUrl.KeyShape | translate_and_post.py:74-82 | The key keeps the input's scheme and everything after the host. Its host is lower-case and not an alias, and an alias host becomes the canonical source host. |
| SourceUrl.KeyIsTrimmed | translate_and_post.py:70-83 | A key has no whitespace at either end, so stripping it again changes nothing. |
| SourceUrl.NormalizeIdempotent | translate_and_post.py:65-83 | Normalising a key again gives the key back, unless the key's host still begins with "www.". |
| SourceUrl.ParseHostAndPath | translate_and_post.py:74 | `urlparse` of "https://" + host + path, for a host without '/', '?' or '#' and a path starting with '/', splits exactly at the host's end. |
| SourceUrl.NormalizeHttpsLink | translate_and_post.py:65-83 | A clean https link keeps its path; only the host is canonicalised. |
| SourceUrl.DropWww | translate_and_post.py:75-77 | A "www." put in front of a lower-case, non-alias host is taken off again. |
| SourceUrl.DoubleWwwKeyChangesOnRenormalising | translate_and_post.py:76-77 | A host "www.www.x" normalises to "www.x", and normalising that again gives "x": only one "www." goes per pass. |
| DomainRepair.RepairDomains | translate_and_post.py:85-93 | After the two substitutions no garbled source link (http(s)://ko.pronews.com, http(s)://(www.)pronews.jp) is left. Text that held none comes back unchanged. |
| DomainRepair.SubstituteAvoids | translate_and_post.py:91-92 | One `re.sub` pass removes every match of its own pattern. It creates no occurrence of a link that was absent before. |
| DomainRepair.SubstituteWithoutMatch | translate_and_post.py:91-92 | A pass over text with no match changes nothing. |
| DomainRepair.RepairIdempotent | translate_and_post.py:85-93 | Repairing repaired text changes nothing. |
| DomainRepair.RepairChangesOnlyGarbledText | translate_and_post.py:85-93 | Text is changed exactly when it holds a garbled source link. |
| Calendar.SecondsOf | translate_and_post.py:116-123 | Every valid wall-clock reading from year 1 to 9999 is a second count in range. |
| Calendar.CivilOf | translate_and_post.py:116-123 | The reading a second count shows (what `astimezone` computes) is valid and maps back to the same count. |
| Calendar.CivilOfSecondsOf | translate_and_post.py:116-123 | A reading comes back from its own second count, so the calendar conversion is a bijection. |
| IsoFormat.Pad2 | translate_and_post.py:121-122 | A two-digit `strftime` field is two digits that read back as the number. |
| IsoFormat.Pad4 | translate_and_post.py:121-122 | `%Y` is four digits that read back as the year. |
| IsoFormat.FormatMinutes | translate_and_post.py:462 | The byline time is the ISO reading cut to the minute, with a blank in place of the "T". |
| IsoFormat.ReadIso | translate_and_post.py:103 | `fromisoformat` accepts only valid readings. A 19-character string is naive. An offset lies strictly within one day. |
| IsoFormat.ReadFormatIso | translate_and_post.py:121-122 | What `strftime("%Y-%m-%dT%H:%M:%S")` writes, `fromisoformat` reads back as the same naive reading. |
| SourceTime.ReplaceZ | translate_and_post.py:103 | `replace("Z", "+00:00")` leaves no "Z" and leaves Z-free text alone. |
| SourceTime.ParseSourceDatetime | translate_and_post.py:95-114 | The result is a +09:00 time, and it is one of three things: the reading of a non-empty `date_gmt`; with no `date_gmt`, the reading of `date`; or `now`. |
| SourceTime.GmtTakesPrecedence | translate_and_post.py:102-106 | When `date_gmt` is present, `date` plays no part. |
| SourceTime.NaiveGmtIsUtc | translate_and_post.py:102-106 | A naive `date_gmt` is read as UTC. If the +09:00 reading would pass year 9999, the OverflowError is swallowed and the result is `now`. |
| SourceTime.NaiveDateIsSourceLocal | translate_and_post.py:107-111 | A naive `date` is read as a +09:00 wall clock, and the result shows exactly that reading. |
| SourceTime.AwareKeepsInstant | translate_and_post.py:102-111 | A value with an explicit offset keeps its instant in either field. |
| SourceTime.UnreadableGmtGivesNow | translate_and_post.py:101-114 | An unreadable `date_gmt` gives `now`, however good `date` is. |
| SourceTime.ToWordPressDates | translate_and_post.py:116-123 | Both dates are 19-character strings. The call fails (OverflowError) exactly when the UTC reading falls before year 1. |
| SourceTime.WordPressDatesAgree | translate_and_post.py:116-123 | Read back as +09:00 and as UTC respectively, the two strings name the same instant. Their readings are exactly nine hours apart. |
| Selection.ReadPost | translate_and_post.py:162-176 | An entry raises at its link exactly when it is not an object or its link is a truthy non-string. Otherwise it keeps the canonical link and the title reading, and is dated by `parse_source_datetime` against its own clock reading. |
| Selection.ArticleOf | translate_and_post.py:177-181 | A collected article keeps its link and date. Its title is the entry's title, or "제목 없음" when that is empty. |
| Selection.Collect | translate_and_post.py:161-181 | The collected articles are admissible: a non-empty link, not seen before, not in the ledger unless forced. No link appears twice. Reading stops at the first entry that raises. When no entry raises, their links are exactly the eligible keys. |
| Selection.FalsyLinkPassedOver | translate_and_post.py:162-164 | An entry with a falsy link is passed over, whatever its title; it does not end the scan. |
| Selection.TitleReadAfterLinkChecks | translate_and_post.py:162-171 | A title that cannot be read ends the scan only for a new, unposted link. With an empty, seen or (unless forced) posted link the entry is passed over before its title is read. |
| Selection.UndatedEntryTakesItsReading | translate_and_post.py:172-175 | An entry whose dates cannot be read is dated by the clock reading taken when the loop parses it. |
| Selection.EligibleStep | translate_and_post.py:162-168 | How the eligible keys split at the first entry: skip empty or seen links, mark the link seen, and skip posted links unless forced. |
| Selection.CandidatesAreStreamPrefix | translate_and_post.py:134-191 | The page loop with its breaks collects exactly the first `DAILY_POST_LIMIT` articles of the reachable stream of entries. |
| Selection.ScanPostsFollowsStream | translate_and_post.py:161-187 | Each page either ends the scan with the limited stream's result, or continues from a state that reads the rest of the stream the same way. |
| Selection.ScanPagesFollowsStream | translate_and_post.py:134-191 | The whole loop over pages gives the limited prefix of the collected stream. |
| Selection.LaterPagesIgnored | translate_and_post.py:151-158 | A page that answers 400, fails or comes back empty ends the scan; no later page is looked at. |
| Selection.PagesPastBudgetIgnored | translate_and_post.py:134 | Only the first `SOURCE_SCAN_MAX_PAGES` pages are requested. |
| Selection.SortNewestFirst | translate_and_post.py:194 | The sort is a permutation with the same links, ordered newest first. |
| Selection.SortIsStable | translate_and_post.py:194 | Articles with the same date keep their relative order. |
| Selection.SortKeepsDistinctLinks | translate_and_post.py:194 | Sorting keeps the links distinct. |
| Selection.Take | translate_and_post.py:196 | `collected[:DAILY_POST_LIMIT]` is a prefix of length min(n, limit). |
| Selection.SelectArticles | translate_and_post.py:125-196 | At most `DAILY_POST_LIMIT` articles, newest first. |
| Selection.SelectionGuarantees | translate_and_post.py:125-196 | The result holds at most the limit, and every article is admissible against the ledger. Links are distinct and the order is newest first. Every link comes from a reachable eligible entry. Short of the limit, with no entry raising, every eligible entry is selected. |
| Extraction.Find | translate_and_post.py:214-220 | `find` returns a matching node. |
| Extraction.FindIsFirstInOrder | translate_and_post.py:214-220 | `find` returns the first match in document order. |
| Extraction.FirstFound | translate_and_post.py:214-220 | The fallback chain returns the first query, in priority order, that finds something; None exactly when none does. |
| Extraction.ChooseContainer | translate_and_post.py:214-224 | The chosen container is an element. |
| Extraction.EntryContentWins | translate_and_post.py:214 | An "entry-content" div anywhere on the page wins over every other container. |
| Extraction.ArticleIsLastResort | translate_and_post.py:219-220 | A bare `article` is used only when none of the three divs is present. |
| Extraction.CleanIsNoneInOrder | translate_and_post.py:227-233 | A forest is clean for a pass exactly when no node in document order matches it. |
| Extraction.PruneCleans | translate_and_post.py:227-233 | After a removal pass nothing it matches is left. |
| Extraction.PruneKeepsClean | translate_and_post.py:227-233 | A pass removes and never adds, so what was clean for another pass stays clean. |
| Extraction.PruneNothing | translate_and_post.py:227-233 | A pass over a forest with nothing to remove changes nothing. |
| Extraction.PruneAllCleans | translate_and_post.py:227-233 | After all passes the forest is clean for every one of them. |
| Extraction.CleanContainer | translate_and_post.py:226-236 | The container keeps its tag and classes, and no descendant matching any pass is left under it. |
| Extraction.CleanedBodyHasNoRemovedNode | translate_and_post.py:226-233 | No descendant of the cleaned container is a script, style, iframe, noscript, form or nav element. None has a class whose lower-case form contains "ad", "advertisement", "banner" or "sidebar". |
| Extraction.CleanContainerKeepsCleanBody | translate_and_post.py:226-236 | A container with nothing to remove is returned unchanged. |
| Extraction.ExtractBody | translate_and_post.py:214-236 | None exactly when no container query finds anything; otherwise the cleaned chosen container. |
| Extraction.SubstringMarkerCatchesHeader | translate_and_post.py:232 | The marker test is a substring test, so a class "header" counts as an advertisement. |
| Translation.Chunks | translate_and_post.py:256-259 | The pieces concatenate back to the text. None is empty or longer than 4000 characters, and all but the last are exactly 4000. |
| Translation.ChunkCount | translate_and_post.py:259 | There are ceil(n / 4000) pieces. |
| Translation.ChunkAt | translate_and_post.py:259 | Piece k is the slice `plain_text[k*4000 : (k+1)*4000]`. |
| Translation.TranslateAll | translate_and_post.py:262-266 | Pieces are translated in order, one result per piece; any failing call fails the whole. |
| Translation.TranslateText | translate_and_post.py:242-276 | Empty text gives "". A failing converter gives the text back. A short text gives its translation, or the text when the translator fails. |
| Translation.TranslateTextByPieces | translate_and_post.py:253-276 | Short and long text follow one rule: pieces translated in order and joined by a blank line, or the original text on failure. |
| Translation.LongTextJoinsSlices | translate_and_post.py:257-268 | A long text is at least two pieces, and its translation is the pieces' translations in slice order, separated by blank lines. |
| Ledger.Load | translate_and_post.py:45-58 | A list gives its string entries, and records whether numbers, booleans or null went into the set beside them; an unhashable entry gives the empty set. An object gives its keys. Any other document, a file that is not valid JSON, or no file gives the empty set. |
| Ledger.BelowTransitive | translate_and_post.py:63 | Python's code-point order on strings is transitive. |
| Ledger.BelowTotal | translate_and_post.py:63 | Python's code-point order on strings is total. |
| Ledger.InsertSorted | translate_and_post.py:63 | Inserting into a strictly sorted list keeps it sorted and adds exactly the element. |
| Ledger.SortedLinks | translate_and_post.py:63 | `sorted(ledger)` is strictly increasing and holds exactly the ledger's links. |
| Ledger.Save | translate_and_post.py:60-63 | It raises exactly when the set holds values other than links; the file is then left empty, and the next load gives the empty ledger. Otherwise the saved document is a strictly sorted list of strings, and loading it gives the same ledger back. |
| Pipeline.BrLinesAddsNoLink | translate_and_post.py:465 | Marking up line breaks creates no garbled source link. |
| Pipeline.PostBody | translate_and_post.py:465 | The body as posted (domains repaired, then line breaks marked up) holds no garbled source link. |
| Pipeline.PostLayoutValid | translate_and_post.py:455-460 | The script's image block and article container open differently. |
| Pipeline.AssembleContent | translate_and_post.py:450-473 | The post opens with the image block exactly when there is an uploaded image URL, and it contains the repaired, marked-up body. |
| Pipeline.ContentShape | translate_and_post.py:454-473 | Optional figure, then head, body and footer: the figure decides the opening, and the body is inside. |
| Pipeline.FetchFullContent | translate_and_post.py:198-240 | Body HTML comes back exactly when the page was fetched and one of the containers is present. |
| Pipeline.ArticleContent | translate_and_post.py:429-473 | The image block is present exactly when the upload gave a non-empty URL. The translated body, repaired, is in the post. |
| Pipeline.BuildRequest | translate_and_post.py:375-385 | The post's title is the translated title, and the featured image id is that of the upload, or 0. The dates are `to_wordpress_dates` of the article's date, and the figure and body facts hold. It fails exactly when the upload's handler raised or that date is before year 1 UTC. |
| Pipeline.Record | translate_and_post.py:477-480 | The ledger gains exactly the article's canonical link, and only when updates are not forced. |
| Pipeline.ProcessArticle | translate_and_post.py:404-482 | The ledger only grows, only by the article's key, and only after the endpoint accepted the post without forcing. It is skipped exactly when there is no body. With a body it crashes exactly when one of four things raises: the image upload's handler, the date conversion, the publishing request's handler, or the save of a ledger holding non-links. |
| Pipeline.SentRequest | translate_and_post.py:477-482 | A post that was sent is the one built from the fetched body. It counts as published exactly when the endpoint accepted it, and as refused exactly when `post_to_wordpress` caught the failure. |
| Pipeline.NoBodyNoPost | translate_and_post.py:413-416 | Without a page or a container nothing is posted and the ledger is untouched. |
| Pipeline.Run | translate_and_post.py:504-509 | Over the selected articles the ledger only grows, and is untouched when forced. There is at most one outcome per article. The run ends early only at a crash, and nothing crashes before the last outcome. Every published article's key is in the final ledger. |
| Pipeline.RunAddsOnlyKeys | translate_and_post.py:478-479 | A run adds nothing to the ledger but canonical links of its articles. |
| Pipeline.PublishedNotSelectedAgain | translate_and_post.py:162-168 | After a run, a published article whose host does not keep a second "www." is not selected again. |
| Pipeline.SaveRunLedger | translate_and_post.py:477-480 | Saving the ledger a run ends with raises exactly when it holds non-links. Otherwise the written file loads back as exactly that ledger, with nothing stray, and without forcing it holds the key of every article the run published. That is the ledger the next selection starts from. |
| Pipeline.DoubledWwwIsRecordedUnderAnotherKey | translate_and_post.py:451 | A host spelled "www.www.x" is selected as "www.x" but recorded under another key. |

## Left out

- Network I/O, `time.sleep`, `print` and `sys.exit` are left out; each network call is a function in `Services`.
- `run()`'s credential checks are left out.
- `automation_engine.py` is not part of this model.
- `get_main_image_url`, `download_image` and `upload_media` are reduced to one service from the article link to an uploaded image (id and URL), a caught failure, or an escaping exception. Deleting the temporary file is not modelled. An upload reply without a `source_url` raises KeyError in `process_article`, and the service reports it as an escaping exception.
- `post_to_wordpress` is a service saying whether the endpoint accepted the request, refused it, or raised. Authentication and HTTP status handling are outside the model. A request that raises after the server created the post (a reply that is not JSON) is a crash like any other: the model does not track whether that post exists.
- `html2text`, the translator, BeautifulSoup and lxml parsing, and `str(content_div)` are outside the model.
  - They enter as functions.
  - The parsed page is a forest of elements with a tag name and class list.
  - A title's `get_text(" ", strip=True)` is assumed done by the listing service.
- `datetime.now` is an input: each listing entry carries its own reading. Whether successive readings increase is not stated, since no property here depends on it.
- Basics.Lower: only ASCII letters are lower-cased. Python's `str.lower` also maps non-ASCII letters.
- SourceUrl.Parse carries everything after the host unchanged. It does not model these `urlsplit` details:
  - `geturl` drops an empty query or fragment delimiter ('?' or '#' with nothing after it);
  - tab, CR and LF inside a URL are removed;
  - a ValueError is raised for a malformed bracketed IPv6 host;
  - `urlparse` splits ";params" off the last path segment, and `geturl` drops an empty one, so "https://jp.pronews.com/a;" comes back without its ';';
  - before Python 3.12.4, a link with an empty host such as "https:////x" is written back as "https://x";
  - a ValueError is raised for a non-ASCII host whose NFKC form brings in a separator character.
  - because of the dropped empty delimiter, a link ending in whitespace and then an empty '?', '#' or ';' (such as "https://jp.pronews.com/a ?") is also normalised to a different key the second time. The first pass leaves the key with a trailing blank, and the second pass strips it.
- IsoFormat.ReadIso reads only "YYYY-MM-DDTHH:MM:SS" with an optional "+HH:MM" or "-HH:MM" offset. That is the form the listing API sends once "Z" is replaced. Other forms `fromisoformat` accepts (fractions, a date alone, a space separator, seconds in the offset) are treated as unreadable.
- IsoFormat.Pad4 assumes years written with four digits. `strftime("%Y")` on some platforms writes years below 1000 without padding.
- Ledger.Load: numbers, booleans and null in a stored list are not kept as values; `Posted.stray` records only that some went into the set. They never equal a link, and their one effect is that saving raises (`Ledger.Save`).
- Ledger.Load: a ledger file that exists but cannot be opened makes `open` raise. That `open` sits outside the `try`, so the script stops before anything runs; the model's files can always be opened.
- Ledger.Save requires a non-empty set of links, as the script saves only right after adding one. Whether `sorted` raises on a set of non-links alone depends on which values they are, and the model does not keep them.
- Ledger.Load works on the parsed JSON document; reading and writing the JSON text and the file are not modelled.
- Ledger.Save: the `indent` and `ensure_ascii` options shape only the text, which is not modelled.
- Selection.ReadPost: clock readings are whole seconds, but `datetime.now` carries microseconds. Two consequences follow.
  - Two fallback entries read within the same second tie in the model, and the stable sort keeps them in read order. Python posts the later one first.
  - A fallback entry and a parsed date in the same second also tie. Python puts the fallback entry first, since its reading is past the whole second.
- Selection.ReadPost: a field value is reduced to what the loop does with it. A falsy link is the empty string. A truthy non-string link is None (it raises). A date field that is falsy is the empty string, and one that is a truthy non-string acts as unreadable text, because `parse_source_datetime` catches what it raises. A title that is not an object, or whose `rendered` is not a string, is None (it raises).
- The configuration (`DAILY_POST_LIMIT`, `SOURCE_SCAN_MAX_PAGES`, `FORCE_UPDATE`) is a `Config` value. Reading environment variables is not modelled; the constants are in `Selection.DefaultConfig`.
- The post's fixed markup is a `Layout` value. The model proves the figure and body facts for any layout whose image block and article container open differently, and `PostLayout` is one.
