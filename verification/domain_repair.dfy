/** Repair of source-site links that translation garbled
    (`normalize_pronews_domains_in_text`): two `re.sub` passes, each scanning
    left to right and replacing non-overlapping matches.

    A regular expression of the shape used here matches a finite set of
    literal strings, so each pass is modelled as a list of alternatives, in
    the order the regex engine tries them, all replaced by the same text. */
module DomainRepair {
  import opened Basics

  const Replacement: string := "https://jp.pronews.com"

  /** `https?://ko\.pronews\.com` */
  const KoPatterns: seq<string> := ["https://ko.pronews.com", "http://ko.pronews.com"]

  /** `https?://(?:www\.)?pronews\.jp` */
  const JpPatterns: seq<string> :=
    ["https://www.pronews.jp", "https://pronews.jp", "http://www.pronews.jp", "http://pronews.jp"]

  /** The first alternative that matches at the start of s. */
  function FirstMatch(s: string, pats: seq<string>): (m: Option<string>)
    ensures m.Some? ==> m.value in pats && StartsWith(s, m.value)
    ensures m.None? ==> forall p :: p in pats ==> !StartsWith(s, p)
  {
    if |pats| == 0 then None
    else if StartsWith(s, pats[0]) then Some(pats[0])
    else FirstMatch(s, pats[1..])
  }

  predicate NonEmpty(pats: seq<string>) {
    forall p :: p in pats ==> |p| > 0
  }

  /** `re.sub(pattern, rep, s)` for a pattern whose matches are the strings in pats. */
  function Substitute(s: string, pats: seq<string>, rep: string): string
    requires NonEmpty(pats)
    decreases |s|
  {
    if |s| == 0 then []
    else match FirstMatch(s, pats)
      case Some(p) => rep + Substitute(s[|p|..], pats, rep)
      case None => [s[0]] + Substitute(s[1..], pats, rep)
  }

  /** `normalize_pronews_domains_in_text`: falsy text comes back as is. No
      garbled source link survives, and text without one is left unchanged. */
  function RepairDomains(text: string): (r: string)
    ensures NoneOccur(r, KoPatterns) && NoneOccur(r, JpPatterns)
    ensures NoneOccur(text, KoPatterns) && NoneOccur(text, JpPatterns) ==> r == text
  {
    if text == [] then text
    else
      TwoPasses(text);
      Substitute(Substitute(text, KoPatterns, Replacement), JpPatterns, Replacement)
  }

  predicate NoneOccur(s: string, pats: seq<string>) {
    forall p :: p in pats ==> !Contains(s, p)
  }

  // ----- substitution facts ---------------------------------------------------

  lemma {:induction false} SubstituteWithoutMatch(s: string, pats: seq<string>, rep: string)
    requires NonEmpty(pats)
    requires NoneOccur(s, pats)
    ensures Substitute(s, pats, rep) == s
    decreases |s|
  {
    if |s| > 0 {
      assert FirstMatch(s, pats).None?;
      assert NoneOccur(s[1..], pats);
      SubstituteWithoutMatch(s[1..], pats, rep);
    }
  }

  /** Every link of interest starts with 'h' and has no other 'h'; so does the
      replacement. This is what stops an occurrence from straddling the seam
      between copied text and an inserted replacement. */
  predicate SingleH(w: string) {
    |w| > 0 && w[0] == 'h' && forall k :: 1 <= k < |w| ==> w[k] != 'h'
  }

  /** Neither of rep and q is a prefix of the other. */
  predicate Disagree(rep: string, q: string) {
    !StartsWith(rep, q) && !StartsWith(q, rep)
  }

  /** A prefix without 'h' of a substitution's output was copied from the input. */
  lemma {:induction false} OutputPrefixCopied(s: string, pats: seq<string>, rep: string, w: string)
    requires NonEmpty(pats) && |rep| > 0 && rep[0] == 'h'
    requires forall k :: 0 <= k < |w| ==> w[k] != 'h'
    requires StartsWith(Substitute(s, pats, rep), w)
    ensures StartsWith(s, w)
    decreases |s|
  {
    if |w| > 0 && |s| > 0 {
      match FirstMatch(s, pats)
      case Some(p) =>
        assert Substitute(s, pats, rep)[0] == rep[0];
      case None =>
        var out := Substitute(s, pats, rep);
        assert out == [s[0]] + Substitute(s[1..], pats, rep);
        assert w[0] == s[0];
        assert Substitute(s[1..], pats, rep)[..|w| - 1] == out[1..|w|] == w[1..];
        OutputPrefixCopied(s[1..], pats, rep, w[1..]);
        assert s == [s[0]] + s[1..];
        assert s[..|w|] == [s[0]] + s[1..][..|w| - 1];
    }
  }

  /** No occurrence of q can start inside an inserted replacement. */
  lemma {:induction false} NoOccurrenceFromReplacement(a: string, b: string, q: string)
    requires |q| > 0 && q[0] == 'h'
    requires forall k :: 1 <= k < |a| ==> a[k] != 'h'
    requires !StartsWith(a + b, q)
    requires !Contains(b, q)
    ensures !Contains(a + b, q)
    decreases |a|
  {
    if |a| > 0 {
      assert (a + b)[1..] == a[1..] + b;
      if |a| > 1 {
        assert (a[1..] + b)[0] == a[1];
      }
      NoOccurrenceFromReplacement(a[1..], b, q);
    } else {
      assert a + b == b;
    }
  }

  /** A substitution leaves no occurrence of q behind when q is one of its own
      patterns, and creates none when q was absent beforehand. */
  lemma {:induction false} SubstituteAvoids(s: string, pats: seq<string>, rep: string, q: string)
    requires NonEmpty(pats) && SingleH(rep) && SingleH(q) && Disagree(rep, q)
    requires q in pats || !Contains(s, q)
    ensures !Contains(Substitute(s, pats, rep), q)
    decreases |s|
  {
    if |s| == 0 {
    } else {
      match FirstMatch(s, pats)
      case Some(p) =>
        if q !in pats {
          if Contains(s[|p|..], q) {
            ContainsOfSuffix(s, |p|, q);
          }
        }
        SubstituteAvoids(s[|p|..], pats, rep, q);
        NoOccurrenceFromReplacement(rep, Substitute(s[|p|..], pats, rep), q);
      case None =>
        var tail := Substitute(s[1..], pats, rep);
        SubstituteAvoids(s[1..], pats, rep, q);
        var out := [s[0]] + tail;
        assert out[1..] == tail;
        if StartsWith(out, q) {
          assert tail[..|q| - 1] == out[1..|q|] == q[1..];
          OutputPrefixCopied(s[1..], pats, rep, q[1..]);
          assert false;
        }
    }
  }

  // ----- the two passes -------------------------------------------------------

  lemma DisagreeAt(rep: string, q: string, k: nat)
    requires k < |rep| && k < |q| && rep[k] != q[k]
    ensures Disagree(rep, q)
  {
  }

  /** The one 'h' of a link is its first character. */
  lemma LinkShape(w: string)
    requires |w| > 0 && w[0] == 'h'
    requires forall k :: 1 <= k < |w| ==> w[k] in "ttps:/wjkoronews.cmp"
    ensures SingleH(w)
  {
  }

  lemma KoShapes()
    ensures NonEmpty(KoPatterns)
    ensures forall q :: q in KoPatterns ==> SingleH(q) && Disagree(Replacement, q)
  {
    LinkShape(KoPatterns[0]);
    LinkShape(KoPatterns[1]);
    DisagreeAt(Replacement, KoPatterns[0], 8);
    DisagreeAt(Replacement, KoPatterns[1], 4);
  }

  lemma JpShapes()
    ensures NonEmpty(JpPatterns)
    ensures forall q :: q in JpPatterns ==> SingleH(q) && Disagree(Replacement, q)
  {
    LinkShape(JpPatterns[0]);
    LinkShape(JpPatterns[1]);
    LinkShape(JpPatterns[2]);
    LinkShape(JpPatterns[3]);
    DisagreeAt(Replacement, JpPatterns[0], 8);
    DisagreeAt(Replacement, JpPatterns[1], 8);
    DisagreeAt(Replacement, JpPatterns[2], 4);
    DisagreeAt(Replacement, JpPatterns[3], 4);
  }

  lemma PatternShapes()
    ensures NonEmpty(KoPatterns) && NonEmpty(JpPatterns) && SingleH(Replacement)
    ensures forall q :: q in KoPatterns ==> SingleH(q) && Disagree(Replacement, q)
    ensures forall q :: q in JpPatterns ==> SingleH(q) && Disagree(Replacement, q)
  {
    LinkShape(Replacement);
    KoShapes();
    JpShapes();
  }

  lemma TwoPasses(text: string)
    ensures var r := Substitute(Substitute(text, KoPatterns, Replacement), JpPatterns, Replacement);
            && NoneOccur(r, KoPatterns) && NoneOccur(r, JpPatterns)
            && (NoneOccur(text, KoPatterns) && NoneOccur(text, JpPatterns) ==> r == text)
  {
    PatternShapes();
    var once := Substitute(text, KoPatterns, Replacement);
    var twice := Substitute(once, JpPatterns, Replacement);
    forall q | q in KoPatterns ensures !Contains(twice, q) {
      SubstituteAvoids(text, KoPatterns, Replacement, q);
      SubstituteAvoids(once, JpPatterns, Replacement, q);
    }
    forall q | q in JpPatterns ensures !Contains(twice, q) {
      SubstituteAvoids(once, JpPatterns, Replacement, q);
    }
    if NoneOccur(text, KoPatterns) && NoneOccur(text, JpPatterns) {
      SubstituteWithoutMatch(text, KoPatterns, Replacement);
      SubstituteWithoutMatch(once, JpPatterns, Replacement);
    }
  }

  /** Repairing repaired text changes nothing. */
  lemma RepairIdempotent(text: string)
    ensures RepairDomains(RepairDomains(text)) == RepairDomains(text)
  {
  }

  /** Text is changed exactly when it holds a garbled source link. */
  lemma RepairChangesOnlyGarbledText(text: string)
    ensures RepairDomains(text) == text <==> NoneOccur(text, KoPatterns) && NoneOccur(text, JpPatterns)
  {
  }
}
