/** Restoring proxied pages: the rewriting before an escaped slash, which is the one that cannot be
    undone on every page, and the whole page. */
module ProxyPages {
  import opened ProxyRewrite
  import opened ProxyReversal
  import opened ProxyPasses
  import opened Sequences

  /** What the pass looks for, and what it writes. */
  const SMALL := URL + ESCAPED_SLASH

  function Big(loc: string): string { URL + loc + ESCAPED_SLASH }

  /** Two places where the location has been written never overlap. */
  predicate Unbordered(loc: string) { forall k :: 1 <= k < |Big(loc)| ==> !(Big(loc)[k..] <= Big(loc)) }

  /** The locations whose mention in an unquoted `url(` can be told from other text: the pass inserts
      nothing in them, and they do not overlap. */
  predicate Separate(loc: string) { loc != "" && loc[0] == '/' && Clear(UrlBare, UrlBare, loc) && Unbordered(loc) }

  lemma Forms(loc: string)
    requires loc != "" && loc[0] == '/'
    ensures SMALL == From(UrlBare) == "url(\\2f " && Big(loc) == Written(UrlBare, loc) && |Big(loc)| == 8 + |loc|
    ensures Big(loc)[..5] == "url(/" && Big(loc)[4 + |loc|..] == "\\2f "
  {
    var big := Big(loc);
    assert big == "url(" + loc + "\\2f ";
    assert loc == [loc[0]] + loc[1..];
  }

  function UndoUrl(loc: string, s: string): string { Undo(URL, loc, ESCAPED_SLASH, s) }

  /** The rewriting of an unquoted `url(` before an escaped slash is undone on this page. */
  predicate UrlRestored(loc: string, s: string) { UndoUrl(loc, PassOver(UrlBare, loc, s)) == s }

  // ----- which pages -----

  /** What the pass writes, from place `j` of it on, is at the beginning of `t`; where the pass inserts
      in `t` it is taken to go on with the beginning of what it writes. */
  predicate Heads(loc: string, j: nat, t: string)
    requires j <= |Big(loc)|
    decreases |t|
  {
    j == |Big(loc)| ||
    (t != "" &&
     if Site(UrlBare, t) then Big(loc)[j..] <= Big(loc) else t[0] == Big(loc)[j] && Heads(loc, j + 1, t[1..]))
  }

  /** At the beginning of `t`, the page looks like a place where the location has been inserted. */
  predicate Misleads(loc: string, t: string) { !Site(UrlBare, t) && Heads(loc, 0, t) }

  ghost predicate Misleading(loc: string, s: string) { exists q :: 0 <= q <= |s| && Misleads(loc, s[q..]) }

  lemma ShortPrefix(a: string, b: string, rest: string)
    requires |a| <= |b|
    ensures a <= b + rest <==> a <= b
  {
    assert (b + rest)[..|a|] == b[..|a|];
  }

  /** That says exactly what the output begins with. */
  lemma {:induction false} HeadsExactly(loc: string, j: nat, t: string)
    requires loc != "" && loc[0] == '/' && j <= |Big(loc)|
    ensures Big(loc)[j..] <= Weave({UrlBare}, loc, t) <==> Heads(loc, j, t)
    decreases |t|
  {
    var big, w := Big(loc), Weave({UrlBare}, loc, t);
    if j < |big| && t != "" {
      if Site(UrlBare, t) {
        Forms(loc);
        var rest := SplitAt(SMALL, t);
        WeaveAt({UrlBare}, loc, UrlBare, rest);
        ShortPrefix(big[j..], big, Weave({UrlBare}, loc, rest));
      } else {
        HeadsExactly(loc, j + 1, t[1..]);
        WeaveElse({UrlBare}, loc, t);
        ConsPrefix(big[j], big[j + 1..], t[0], w[1..]);
        assert big[j..] == [big[j]] + big[j + 1..] && w == [t[0]] + w[1..];
      }
    }
  }

  lemma ConsPrefix(x: char, a: string, y: char, b: string)
    ensures [x] + a <= [y] + b <==> x == y && a <= b
  {
    assert ([x] + a)[1..] == a && ([y] + b)[1..] == b;
    assert [x] + a <= [y] + b ==> ([y] + b)[0] == ([x] + a)[0];
    if [x] + a <= [y] + b {
      assert forall i :: 0 <= i < |a| ==> a[i] == ([x] + a)[i + 1] == ([y] + b)[i + 1] == b[i];
    }
  }

  lemma MisleadingBehind(loc: string, s: string, n: nat)
    requires n <= |s| && forall q :: 0 <= q < n ==> !Misleads(loc, s[q..])
    ensures Misleading(loc, s) <==> Misleading(loc, s[n..])
  {
    if Misleading(loc, s) {
      var q :| 0 <= q <= |s| && Misleads(loc, s[q..]);
      assert s[n..][q - n..] == s[q..];
    }
    if Misleading(loc, s[n..]) {
      var q :| 0 <= q <= |s[n..]| && Misleads(loc, s[n..][q..]);
      assert s[n..][q..] == s[n + q..];
    }
  }

  /** Nothing misleading begins in a match. */
  lemma MatchMisleadsNowhere(loc: string, s: string)
    requires loc != "" && loc[0] == '/' && Site(UrlBare, s)
    ensures forall q :: 0 <= q < |SMALL| ==> !Misleads(loc, s[q..])
  {
    BigChars(loc);
    Forms(loc);
    FromChars(UrlBare);
    assert s[0..] == s;
    forall q | 1 <= q < |SMALL| ensures !Misleads(loc, s[q..]) {
      assert s[q..][0] == s[q] == SMALL[q];
    }
  }

  /** A misleading place has a slash where a match has none. */
  lemma MisleadingHasSlash(loc: string, s: string)
    requires loc != "" && loc[0] == '/' && Misleads(loc, s)
    ensures |s| > 4 && s[4] == '/'
  {
    BigChars(loc);
    Forms(loc);
    HeadsAlong(loc, 0, s);
    HeadsAlong(loc, 1, s[1..]);
    HeadsAlong(loc, 2, s[2..]);
    HeadsAlong(loc, 3, s[3..]);
    HeadsAlong(loc, 4, s[4..]);
  }

  lemma HeadsAlong(loc: string, j: nat, t: string)
    requires loc != "" && loc[0] == '/' && j < 5 && (j == 0 ==> !Site(UrlBare, t)) && Heads(loc, j, t) && j < |Big(loc)|
    ensures t != "" && t[0] == Big(loc)[j] && Heads(loc, j + 1, t[1..])
  {
    BigChars(loc);
    SuffixHead(Big(loc), j);
  }

  lemma SuffixHead(u: string, j: nat)
    requires j < |u|
    ensures u[j..] <= u ==> u[j] == u[0]
  {
    assert u[j..][0] == u[j];
  }

  /** For every location: the pass can be undone exactly on the pages that nowhere look like a place
      where it has inserted. */
  lemma {:induction false} UrlRestoredExactly(loc: string, s: string)
    requires loc != "" && loc[0] == '/'
    ensures UrlRestored(loc, s) <==> !Misleading(loc, s)
    decreases |s|
  {
    var big := Big(loc);
    Forms(loc);
    PassIsWeave(UrlBare, loc, s);
    if s == "" {
    } else if Site(UrlBare, s) {
      var rest := SplitAt(SMALL, s);
      PassIsWeave(UrlBare, loc, rest);
      UrlRestoredExactly(loc, rest);
      WeaveAt({UrlBare}, loc, UrlBare, rest);
      ReplaceAllAt(big, SMALL, Weave({UrlBare}, loc, rest));
      SameBehind(SMALL, UndoUrl(loc, Weave({UrlBare}, loc, rest)), rest);
      MatchMisleadsNowhere(loc, s);
      MisleadingBehind(loc, s, |SMALL|);
    } else {
      PassIsWeave(UrlBare, loc, s[1..]);
      UrlRestoredExactly(loc, s[1..]);
      NoSiteStep(loc, s);
    }
  }

  lemma SameBehind(a: string, b: string, c: string)
    ensures a + b == a + c <==> b == c
  {
    assert (a + b)[|a|..] == b && (a + c)[|a|..] == c;
  }

  lemma NoSiteStep(loc: string, s: string)
    requires loc != "" && loc[0] == '/' && s != "" && !Site(UrlBare, s)
    ensures UndoUrl(loc, Weave({UrlBare}, loc, s)) == s <==>
            !Misleads(loc, s) && UndoUrl(loc, Weave({UrlBare}, loc, s[1..])) == s[1..]
    ensures Misleading(loc, s) <==> Misleads(loc, s) || Misleading(loc, s[1..])
  {
    var big, w := Big(loc), Weave({UrlBare}, loc, s);
    Forms(loc);
    HeadsExactly(loc, 0, s);
    WeaveElse({UrlBare}, loc, s);
    assert s[0..] == s && big[0..] == big;
    if Misleads(loc, s) {
      var rest := SplitAt(big, w);
      ReplaceAllAt(big, SMALL, rest);
      MisleadingHasSlash(loc, s);
      assert (SMALL + UndoUrl(loc, rest))[4] == SMALL[4] == '\\';
    } else {
      ConsEqual(s[0], UndoUrl(loc, w[1..]), s);
      MisleadingBehind(loc, s, 1);
    }
  }

  // ----- pages that mention the location -----

  /** Nothing but a mention of a separate location misleads. */
  lemma {:induction false} HeadsIsMention(loc: string, j: nat, t: string)
    requires Separate(loc) && 1 <= j <= |Big(loc)| && Heads(loc, j, t)
    ensures Big(loc)[j..] <= t
    decreases |t|
  {
    if j < |Big(loc)| {
      HeadsIsMention(loc, j + 1, t[1..]);
      ConsPrefix(Big(loc)[j], Big(loc)[j + 1..], t[0], t[1..]);
      assert Big(loc)[j..] == [Big(loc)[j]] + Big(loc)[j + 1..] && t == [t[0]] + t[1..];
    }
  }

  /** A mention of one does. */
  lemma {:induction false} MentionIsHeads(loc: string, j: nat, rest: string)
    requires Separate(loc) && j <= |Big(loc)|
    ensures Heads(loc, j, (Big(loc) + rest)[j..])
    decreases |Big(loc)| - j
  {
    var s := Big(loc) + rest;
    if j < |Big(loc)| {
      MentionIsHeads(loc, j + 1, rest);
      Forms(loc);
      NoSiteInsideWritten(UrlBare, UrlBare, loc, rest);
      assert s[j..][1..] == s[j + 1..] && s[j..][0] == Big(loc)[j];
      assert !AnySite({UrlBare}, s[j..]) ==> !Site(UrlBare, s[j..]);
    }
  }

  lemma MisleadsIsMention(loc: string, t: string)
    requires Separate(loc)
    ensures Misleads(loc, t) <==> Big(loc) <= t
  {
    BigChars(loc);
    Forms(loc);
    if Misleads(loc, t) {
      HeadsIsMention(loc, 1, t[1..]);
      ConsPrefix(Big(loc)[0], Big(loc)[1..], t[0], t[1..]);
      assert Big(loc) == [Big(loc)[0]] + Big(loc)[1..] && t == [t[0]] + t[1..];
    }
    if Big(loc) <= t {
      var rest := SplitAt(Big(loc), t);
      MentionIsHeads(loc, 0, rest);
      assert t[0..] == t && t[4] == Big(loc)[4];
    }
  }

  /** For a separate location those are the pages that do not mention the location there themselves. */
  lemma UrlReversible(loc: string, s: string)
    requires Separate(loc)
    ensures MentionDecides(loc, s)
  {
    UrlRestoredExactly(loc, s);
    if Misleading(loc, s) {
      var q :| 0 <= q <= |s| && Misleads(loc, s[q..]);
      MisleadsIsMention(loc, s[q..]);
    }
    if Contains(s, Big(loc)) {
      var q :| 0 <= q <= |s| && Big(loc) <= s[q..];
      MisleadsIsMention(loc, s[q..]);
    }
  }

  // ----- which locations -----

  /** A location without a bracket is such. */
  lemma BracketFreeIsSeparate(loc: string)
    requires loc != "" && loc[0] == '/' && '(' !in loc
    ensures Separate(loc)
  {
    var u := Written(UrlBare, loc);
    Forms(loc);
    forall k | 0 <= k <= |u| ensures !(SMALL <= u[k..]) && (1 <= k < |u| ==> !(u[k..] <= u)) {
      OneBracket(loc, k);
    }
  }

  lemma OneBracket(loc: string, k: nat)
    requires loc != "" && loc[0] == '/' && '(' !in loc && k <= |Big(loc)|
    ensures !(SMALL <= Big(loc)[k..]) && (1 <= k < |Big(loc)| ==> !(Big(loc)[k..] <= Big(loc)))
  {
    var u := Big(loc);
    Forms(loc);
    if k == 0 {
      assert u[4] == u[..5][4] && SMALL[4] == '\\';
    } else if k + 3 < |u| {
      assert u[k + 3] != '(' by {
        if k + 3 < 4 + |loc| { assert u[k + 3] == loc[k - 1]; } else { assert u[k + 3] == ESCAPED_SLASH[k - 1 - |loc|]; }
      }
      assert u[k..][3] == u[k + 3] && u[3] == u[..5][3] && SMALL[3] == '(';
    } else if k < |u| {
      assert u[k..][0] == u[k] == ESCAPED_SLASH[k - 4 - |loc|] && u[0] == u[..5][0];
    }
  }

  /** The pages that are restored are those that do not mention the location. */
  ghost predicate MentionsDecide(loc: string) { forall s :: MentionDecides(loc, s) }

  ghost predicate MentionDecides(loc: string, s: string) { UrlRestored(loc, s) <==> !Contains(s, Big(loc)) }

  /** Among the locations in which the pass inserts nothing, only those whose mentions do not overlap
      have that property: otherwise a page that mentions the location nowhere is not restored. */
  lemma ExactlyUnbordered(loc: string)
    requires loc != "" && loc[0] == '/' && Clear(UrlBare, UrlBare, loc)
    ensures MentionsDecide(loc) <==> Unbordered(loc)
  {
    if Unbordered(loc) {
      UnborderedDecides(loc);
    } else {
      BorderedDoesNot(loc);
    }
  }

  lemma UnborderedDecides(loc: string)
    requires Separate(loc)
    ensures MentionsDecide(loc)
  {
    forall s ensures MentionDecides(loc, s) {
      UrlReversible(loc, s);
    }
  }

  lemma BorderedDoesNot(loc: string)
    requires loc != "" && loc[0] == '/' && Clear(UrlBare, UrlBare, loc) && !Unbordered(loc)
    ensures !MentionsDecide(loc)
  {
    var k := Border(loc);
    var s := OverlapPage(loc, k);
  }

  lemma Border(loc: string) returns (k: nat)
    requires !Unbordered(loc)
    ensures 1 <= k < |Big(loc)| && Big(loc)[k..] <= Big(loc)
  {
    k :| 1 <= k < |Big(loc)| && Big(loc)[k..] <= Big(loc);
  }

  lemma OverlapPage(loc: string, k: nat) returns (s: string)
    requires loc != "" && loc[0] == '/' && Clear(UrlBare, UrlBare, loc)
    requires 1 <= k < |Big(loc)| && Big(loc)[k..] <= Big(loc)
    ensures !MentionDecides(loc, s)
  {
    s := Big(loc)[..k] + SMALL;
    BorderIsLong(loc, k);
    OverlapNotMentioned(loc, k);
    OverlapNotRestored(loc, k);
  }

  lemma BigChars(loc: string)
    requires loc != "" && loc[0] == '/'
    ensures var u := Big(loc); u[0] == 'u' && u[1] == 'r' && u[2] == 'l' && u[3] == '(' && u[4] == '/'
    ensures var u := Big(loc); u[|u| - 4] == '\\' && u[|u| - 1] == ' '
  {
    var u := Big(loc);
    Forms(loc);
    assert forall i :: 0 <= i < 5 ==> u[i] == u[..5][i];
    var t := u[4 + |loc|..];
    assert t[0] == '\\' && t[3] == ' ' && u[|u| - 4] == t[0] && u[|u| - 1] == t[3];
  }

  lemma OverlapChar(u: string, k: nat, i: nat)
    requires k <= |u| && u[k..] <= u && k + i < |u|
    ensures u[k + i] == u[i]
  {
    assert u[k..][i] == u[k + i];
  }

  /** An overlap has both ends of what the pass writes. */
  lemma BorderIsLong(loc: string, k: nat)
    requires loc != "" && loc[0] == '/' && 1 <= k < |Big(loc)| && Big(loc)[k..] <= Big(loc)
    ensures k >= 5 && k + 9 <= |Big(loc)|
  {
    var u := Big(loc);
    var n := |u| - k;
    Forms(loc);
    BigChars(loc);
    OverlapChar(u, k, 0);
    OverlapChar(u, k, n - 1);
    if n >= 4 {
      OverlapChar(u, k, n - 4);
    }
  }

  lemma OverlapNotMentioned(loc: string, k: nat)
    requires loc != "" && loc[0] == '/' && 5 <= k && k + 9 <= |Big(loc)|
    ensures !Contains(Big(loc)[..k] + SMALL, Big(loc))
  {
    Forms(loc);
    assert |Big(loc)[..k] + SMALL| < |Big(loc)|;
  }

  lemma OverlapWoven(loc: string, k: nat)
    requires loc != "" && loc[0] == '/' && Clear(UrlBare, UrlBare, loc)
    requires 5 <= k && k + 9 <= |Big(loc)| && Big(loc)[k..] <= Big(loc)
    ensures PassOver(UrlBare, loc, Big(loc)[..k] + SMALL) == Big(loc)[..k] + Big(loc)
  {
    var u, z := Big(loc), Big(loc)[..k];
    var s := z + SMALL;
    Forms(loc);
    forall q | 0 <= q < k ensures !AnySite({UrlBare}, s[q..]) {
      NoSiteBeforeOverlap(loc, k, q);
    }
    PassIsWeave(UrlBare, loc, s);
    WeaveCopies({UrlBare}, loc, s, k);
    assert s[..k] == z && s[k..] == SMALL && SMALL + "" == SMALL;
    WeaveAt({UrlBare}, loc, UrlBare, "");
    assert Weave({UrlBare}, loc, "") == "" && u + "" == u;
  }

  /** No match begins before another one and ends in it. */
  lemma NoMatchInto(z: string, q: nat)
    requires q < |z| < q + |SMALL|
    ensures !(SMALL <= (z + SMALL)[q..])
  {
    var s, m := z + SMALL, |z| - q;
    FromChars(UrlBare);
    assert SMALL == From(UrlBare) && s[q..][m] == s[|z|] == SMALL[0];
    Differ(SMALL, s[q..], m);
  }

  lemma NoSiteBeforeOverlap(loc: string, k: nat, q: nat)
    requires loc != "" && loc[0] == '/' && Clear(UrlBare, UrlBare, loc)
    requires 5 <= k && k + 9 <= |Big(loc)| && Big(loc)[k..] <= Big(loc) && q < k
    ensures !Site(UrlBare, (Big(loc)[..k] + SMALL)[q..])
  {
    var u, z := Big(loc), Big(loc)[..k];
    var s := z + SMALL;
    Forms(loc);
    FromChars(UrlBare);
    if q + 8 > k {
      NoMatchInto(z, q);
    } else {
      SameSite(UrlBare, z, SMALL, q);
      SameSite(UrlBare, z, u[k..], q);
      assert z + u[k..] == u;
      assert u[k..][0] == u[0] == u[..5][0];
      assert !Site(UrlBare, u[q..]);
    }
  }

  lemma OverlapText(u: string, k: nat)
    requires k <= |u| && u[k..] <= u
    ensures u[..k] + u == u + u[|u| - k..]
  {
    var z, b, y := u[..k], u[k..], u[|u| - k..];
    assert u == z + b && u[..|b|] == b && u == b + y;
    Assoc(z, b, y);
  }

  lemma FifthDiffers(z: string, rest: string)
    requires |z| >= 5 && z[4] == '/'
    ensures z + SMALL != SMALL + rest
  {
    assert (z + SMALL)[4] == '/' && (SMALL + rest)[4] == SMALL[4] == '\\';
  }

  lemma OverlapNotRestored(loc: string, k: nat)
    requires loc != "" && loc[0] == '/' && Clear(UrlBare, UrlBare, loc)
    requires 5 <= k && k + 9 <= |Big(loc)| && Big(loc)[k..] <= Big(loc)
    ensures !UrlRestored(loc, Big(loc)[..k] + SMALL)
  {
    var u, z := Big(loc), Big(loc)[..k];
    var y := u[|u| - k..];
    OverlapWoven(loc, k);
    Forms(loc);
    OverlapText(u, k);
    ReplaceAllAt(u, SMALL, y);
    assert z[4] == u[..5][4];
    FifthDiffers(z, ReplaceAll(u, SMALL, y));
  }

  // ----- whole pages -----

  function UndoPass(p: Pass, loc: string, s: string): string { Undo(Prefix(p), loc, Separator(p), s) }

  /** Takes the location out of a whole page again. */
  function UndoPage(loc: string, s: string): string {
    UndoPass(UrlBare, loc, UndoPass(UrlQuoted, loc, UndoPass(Src, loc, UndoPass(Href, loc, s))))
  }

  /** At the root nothing is inserted. */
  lemma RootChangesNothing(p: Pass, s: string)
    ensures PassOver(p, "", s) == s && UndoPass(p, "", s) == s
  {
    FromChars(p);
    PrefixEnds(p);
    assert Prefix(p) + "" == Prefix(p);
    EmptyLocationChangesNothing(Prefix(p), Separator(p), s);
    ReplaceByItself(From(p), s);
  }

  lemma QuotedPassUndone(p: Pass, loc: string, s: string)
    requires !p.UrlBare? && IsLocation(loc)
    ensures UndoPass(p, loc, PassOver(p, loc, s)) == s
  {
    PrefixEnds(p);
    match p
    case Href => RewriteReversible("href=\"", loc, s);
    case Src => RewriteReversible("src=\"", loc, s);
    case UrlQuoted => RewriteReversible("url(\"", loc, s);
  }

  /** For every location whose passes are independent: a proxied page can be restored exactly if it
      nowhere looks like an unquoted `url(` that has been rewritten; at the root, always. */
  lemma PageReversible(loc: string, body: string)
    requires IsLocation(loc) && Independent(loc)
    ensures UndoPage(loc, Passes(Href, Src, UrlQuoted, UrlBare, loc, body)) == body <==>
            loc == "" || !Misleading(loc, body)
  {
    OrderDoesNotMatter(UrlBare, UrlQuoted, Src, Href, loc, body);
    var s1 := PassOver(UrlBare, loc, body);
    var s2 := PassOver(UrlQuoted, loc, s1);
    var s3 := PassOver(Src, loc, s2);
    QuotedPassUndone(Href, loc, s3);
    QuotedPassUndone(Src, loc, s2);
    QuotedPassUndone(UrlQuoted, loc, s1);
    if loc == "" {
      RootChangesNothing(UrlBare, body);
    } else {
      UrlRestoredExactly(loc, body);
    }
  }

  /** For the other locations, undoing the passes from the last to the first restores the page if what
      the last pass was given is not misleading. */
  lemma PageRestoredFromLast(loc: string, body: string)
    requires IsLocation(loc)
    requires loc == "" || !Misleading(loc, PassOver(UrlQuoted, loc, PassOver(Src, loc, PassOver(Href, loc, body))))
    ensures var page := Passes(Href, Src, UrlQuoted, UrlBare, loc, body);
            UndoPass(Href, loc, UndoPass(Src, loc, UndoPass(UrlQuoted, loc, UndoPass(UrlBare, loc, page)))) == body
  {
    var s1 := PassOver(Href, loc, body);
    var s2 := PassOver(Src, loc, s1);
    var s3 := PassOver(UrlQuoted, loc, s2);
    QuotedPassUndone(Href, loc, body);
    QuotedPassUndone(Src, loc, s1);
    QuotedPassUndone(UrlQuoted, loc, s2);
    if loc == "" {
      RootChangesNothing(UrlBare, s3);
    } else {
      UrlRestoredExactly(loc, s3);
    }
  }
}
