/** The four rewriting passes over a proxied page, `prepare_proxied_resp`. */
module ProxyPasses {
  import opened ProxyRewrite
  import opened ProxyReversal
  import opened Sequences

  datatype Pass = Href | Src | UrlQuoted | UrlBare

  function Prefix(p: Pass): string {
    match p case Href => "href=\"" case Src => "src=\"" case UrlQuoted => "url(\"" case UrlBare => URL
  }

  function Separator(p: Pass): string { if p.UrlBare? then ESCAPED_SLASH else "/" }

  function From(p: Pass): string { Prefix(p) + Separator(p) }

  function PassOver(p: Pass, loc: string, s: string): string { Rewrite(Prefix(p), loc, Separator(p), s) }

  /** The body that is sent on: the passes in the order of the source. */
  method PreparedBody(location: string, body: string) returns (r: string)
    ensures r == PassOver(UrlBare, location, PassOver(UrlQuoted, location, PassOver(Src, location, PassOver(Href, location, body))))
  {
    r := ReplacedAbsolutePaths(location, body, "href=\"", "/");
    r := ReplacedAbsolutePaths(location, r, "src=\"", "/");
    r := ReplacedAbsolutePaths(location, r, "url(\"", "/");
    r := ReplacedAbsolutePaths(location, r, "url(", "\\2f ");
  }

  // ----- all passes at once -----

  /** A pass inserts at the beginning of `s`. */
  predicate Site(p: Pass, s: string) { From(p) <= s && !BeginsSlash(s[|From(p)|..]) }

  ghost predicate AnySite(ps: set<Pass>, s: string) { exists p :: p in ps && Site(p, s) }

  ghost function SiteOf(ps: set<Pass>, s: string): (p: Pass)
    requires AnySite(ps, s)
    ensures p in ps && Site(p, s)
  {
    var p :| p in ps && Site(p, s);
    p
  }

  /** One scan that does the insertions of all the passes in `ps`. */
  ghost function Weave(ps: set<Pass>, loc: string, s: string): string
    decreases |s|
  {
    if s == "" then ""
    else if AnySite(ps, s) then
      var p := SiteOf(ps, s);
      Prefix(p) + loc + Separator(p) + Weave(ps, loc, s[|From(p)|..])
    else [s[0]] + Weave(ps, loc, s[1..])
  }

  /** A text without quotes and brackets. */
  predicate IsPlain(text: string) { '"' !in text && '(' !in text }

  predicate IsFirst(c: char) { c == 'h' || c == 's' || c == 'u' }

  lemma FromChars(p: Pass)
    ensures |From(p)| >= 5 && IsFirst(From(p)[0])
    ensures forall k :: 1 <= k < |From(p)| ==> !IsFirst(From(p)[k])
  {
    match p
    case Href => assert From(p) == "href=\"/";
    case Src => assert From(p) == "src=\"/";
    case UrlQuoted => assert From(p) == "url(\"/";
    case UrlBare => assert From(p) == "url(\\2f ";
  }

  lemma OnlyOneSite(p: Pass, q: Pass, s: string)
    requires From(p) <= s && From(q) <= s
    ensures p == q
  {
    FromChars(p);
    FromChars(q);
    assert s[0] == From(p)[0] == From(q)[0] && s[4] == From(p)[4] == From(q)[4];
  }

  lemma WeaveAt(ps: set<Pass>, loc: string, p: Pass, rest: string)
    requires p in ps && !BeginsSlash(rest)
    ensures Weave(ps, loc, From(p) + rest) == Prefix(p) + loc + Separator(p) + Weave(ps, loc, rest)
  {
    var s := From(p) + rest;
    FromChars(p);
    assert s[|From(p)|..] == rest && Site(p, s);
    OnlyOneSite(p, SiteOf(ps, s), s);
  }

  lemma WeaveElse(ps: set<Pass>, loc: string, s: string)
    requires s != "" && !AnySite(ps, s)
    ensures Weave(ps, loc, s) == [s[0]] + Weave(ps, loc, s[1..])
    ensures Weave(ps, loc, s)[1..] == Weave(ps, loc, s[1..])
  {
  }

  /** Characters where no pass inserts are copied. */
  lemma {:induction false} WeaveCopies(ps: set<Pass>, loc: string, s: string, n: nat)
    requires n <= |s| && forall k :: 0 <= k < n ==> !AnySite(ps, s[k..])
    ensures Weave(ps, loc, s) == s[..n] + Weave(ps, loc, s[n..])
    decreases n
  {
    assert s[0..] == s;
    if n > 0 {
      WeaveElse(ps, loc, s);
      var t := s[1..];
      forall k | 0 <= k < n - 1 ensures !AnySite(ps, t[k..]) {
        assert t[k..] == s[k + 1..];
      }
      WeaveCopies(ps, loc, t, n - 1);
      TakeOneMore(s, n, Weave(ps, loc, s[n..]));
    }
  }

  /** Nothing begins inside a match. */
  lemma NoSiteInsideFrom(ps: set<Pass>, p: Pass, rest: string)
    ensures forall k :: 1 <= k < |From(p)| ==> !AnySite(ps, (From(p) + rest)[k..])
  {
    var s := From(p) + rest;
    FromChars(p);
    forall k, q | 1 <= k < |From(p)| && q in ps ensures !Site(q, s[k..]) {
      FromChars(q);
      assert s[k..][0] == From(p)[k];
      Differ(From(q), s[k..], 0);
    }
  }

  /** One pass is a scan with that pass alone. */
  lemma {:induction false} PassIsWeave(p: Pass, loc: string, s: string)
    ensures PassOver(p, loc, s) == Weave({p}, loc, s)
    decreases |s|
  {
    var from := From(p);
    FromChars(p);
    if from <= s {
      var rest := SplitAt(from, s);
      PassIsWeave(p, loc, rest);
      RewriteAt(Prefix(p), loc, Separator(p), rest);
      if BeginsSlash(rest) {
        NoSiteInsideFrom({p}, p, rest);
        assert s[0..] == s && !AnySite({p}, s);
        WeaveCopies({p}, loc, s, |from|);
      } else {
        WeaveAt({p}, loc, p, rest);
      }
    } else if s != "" {
      PassIsWeave(p, loc, s[1..]);
      WeaveElse({p}, loc, s);
    }
  }

  // ----- independence -----

  /** What pass `i` writes at a site. */
  function Written(i: Pass, loc: string): string { Prefix(i) + loc + Separator(i) }

  /** Pass `j` inserts nothing in what pass `i` writes. */
  predicate Clear(i: Pass, j: Pass, loc: string) {
    forall k :: 0 <= k <= |Written(i, loc)| ==> !Site(j, Written(i, loc)[k..])
  }

  /** The locations for which the passes do not get in each other's way. */
  predicate Independent(loc: string) { forall i, j :: i != j ==> Clear(i, j, loc) }

  lemma PrefixEnds(p: Pass)
    ensures |Prefix(p)| >= 4 && From(p)[..|Prefix(p)|] == Prefix(p)
    ensures Prefix(p)[|Prefix(p)| - 1] == (if p.UrlBare? then '(' else '"')
    ensures forall k :: 0 <= k < |Prefix(p)| - 1 ==> Prefix(p)[k] != '"'
    ensures forall k :: 0 <= k < |From(p)| - 1 ==> From(p)[k] != '/' && From(p)[k] != ' '
    ensures |Separator(p)| > 0 && var last := Separator(p)[|Separator(p)| - 1]; last == '/' || last == ' '
  {
    match p
    case Href => assert From(p) == "href=\"/";
    case Src => assert From(p) == "src=\"/";
    case UrlQuoted => assert From(p) == "url(\"/";
    case UrlBare => assert From(p) == "url(\\2f ";
  }

  /** A match does not begin in what a pass writes and end behind it. */
  lemma NoMatchAcross(j: Pass, i: Pass, loc: string, rest: string, k: nat)
    requires k < |Written(i, loc)| < k + |From(j)|
    ensures !(From(j) <= (Written(i, loc) + rest)[k..])
  {
    var u := Written(i, loc);
    PrefixEnds(i);
    PrefixEnds(j);
    assert u[|u| - 1] == Separator(i)[|Separator(i)| - 1];
    assert (u + rest)[k..][|u| - 1 - k] == u[|u| - 1];
    Differ(From(j), (u + rest)[k..], |u| - 1 - k);
  }

  /** What one pass writes is left alone by another pass that inserts nothing in it, whatever follows. */
  lemma NoSiteInsideWritten(j: Pass, i: Pass, loc: string, rest: string)
    requires Clear(i, j, loc)
    ensures forall k :: 0 <= k < |Written(i, loc)| ==> !AnySite({j}, (Written(i, loc) + rest)[k..])
  {
    var u, n := Written(i, loc), |From(j)|;
    forall k | 0 <= k < |u| ensures !Site(j, (u + rest)[k..]) {
      if k + n > |u| {
        NoMatchAcross(j, i, loc, rest, k);
      } else {
        SameSite(j, u, rest, k);
      }
    }
  }

  /** A match that ends in `u` is a site there unless the slash that prevents it is in `u`. */
  lemma SameSite(j: Pass, u: string, rest: string, k: nat)
    requires k + |From(j)| <= |u|
    ensures Site(j, (u + rest)[k..]) ==> Site(j, u[k..])
    ensures !BeginsSlash(rest) && Site(j, u[k..]) ==> Site(j, (u + rest)[k..])
  {
    var n := |From(j)|;
    CutInFront(u, rest, k);
    CutInFront(u[k..], rest, n);
    assert (u[k..] + rest)[..n] == u[k..][..n];
  }

  /** The first character of a page stays; where a pass inserts it is the first of its match. */
  lemma WeaveHead(ps: set<Pass>, loc: string, t: string)
    requires t != ""
    ensures Weave(ps, loc, t) != "" && Weave(ps, loc, t)[0] == t[0]
    ensures AnySite(ps, t) ==> IsFirst(t[0])
  {
    if AnySite(ps, t) {
      FromChars(SiteOf(ps, t));
      PrefixEnds(SiteOf(ps, t));
    }
  }

  /** A later part of a match, found in the output, was in the input. */
  lemma {:induction false} MatchPartKept(ps: set<Pass>, loc: string, j: Pass, t: string, k: nat)
    requires 1 <= k <= |From(j)| && From(j)[k..] <= Weave(ps, loc, t)
    ensures From(j)[k..] <= t
    decreases |t|
  {
    if k < |From(j)| && t != "" {
      var part, w := From(j)[k..], Weave(ps, loc, t);
      FromChars(j);
      WeaveHead(ps, loc, t);
      assert part[0] == w[0];
      WeaveElse(ps, loc, t);
      assert part == [part[0]] + part[1..] && part[1..] == From(j)[k + 1..] && w == [w[0]] + w[1..];
      MatchPartKept(ps, loc, j, t[1..], k + 1);
      assert t == [t[0]] + t[1..];
    }
  }

  lemma MatchKept(ps: set<Pass>, loc: string, j: Pass, s: string)
    requires s != "" && !AnySite(ps, s) && From(j) <= Weave(ps, loc, s)
    ensures From(j) <= s
  {
    var from, w := From(j), Weave(ps, loc, s);
    FromChars(j);
    WeaveElse(ps, loc, s);
    assert from[1..] <= w[1..];
    MatchPartKept(ps, loc, j, s[1..], 1);
    assert from == [from[0]] + from[1..] && s == [s[0]] + s[1..] && w[0] == s[0];
  }

  /** Outside the sites of other passes, a scan for them neither hides nor makes a site. */
  lemma SiteUnchanged(ps: set<Pass>, loc: string, j: Pass, s: string)
    requires s != "" && !AnySite(ps, s)
    ensures Site(j, Weave(ps, loc, s)) <==> Site(j, s)
    ensures From(j) <= s ==> Weave(ps, loc, s) == From(j) + Weave(ps, loc, s[|From(j)|..])
  {
    var from, w := From(j), Weave(ps, loc, s);
    FromChars(j);
    if from <= s {
      var rest := SplitAt(from, s);
      NoSiteInsideFrom(ps, j, rest);
      assert s[0..] == s;
      WeaveCopies(ps, loc, s, |from|);
      assert s[..|from|] == from && w[|from|..] == Weave(ps, loc, rest);
      if rest != "" {
        WeaveHead(ps, loc, rest);
      }
    } else if from <= w {
      MatchKept(ps, loc, j, s);
    }
  }

  /** A pass after others is the scan for all of them. */
  lemma {:induction false} PassJoins(ps: set<Pass>, j: Pass, loc: string, s: string)
    requires j !in ps && Independent(loc)
    ensures Weave({j}, loc, Weave(ps, loc, s)) == Weave(ps + {j}, loc, s)
    decreases |s|
  {
    var w := Weave(ps, loc, s);
    if s == "" {
    } else if AnySite(ps, s) {
      var i := SiteOf(ps, s);
      FromChars(i);
      var rest := SplitAt(From(i), s);
      var x := Weave(ps, loc, rest);
      PassJoins(ps, j, loc, rest);
      WeaveAt(ps, loc, i, rest);
      WeaveAt(ps + {j}, loc, i, rest);
      assert Clear(i, j, loc);
      NoSiteInsideWritten(j, i, loc, x);
      WeaveCopies({j}, loc, Written(i, loc) + x, |Written(i, loc)|);
    } else {
      SiteUnchanged(ps, loc, j, s);
      if Site(j, s) {
        FromChars(j);
        var rest := SplitAt(From(j), s);
        PassJoins(ps, j, loc, rest);
        if rest != "" {
          WeaveHead(ps, loc, rest);
        }
        WeaveAt({j}, loc, j, Weave(ps, loc, rest));
        WeaveAt(ps + {j}, loc, j, rest);
      } else {
        PassJoins(ps, j, loc, s[1..]);
        WeaveElse(ps, loc, s);
        WeaveElse({j}, loc, w);
        WeaveElse(ps + {j}, loc, s);
      }
    }
  }

  function Passes(a: Pass, b: Pass, c: Pass, d: Pass, loc: string, s: string): string {
    PassOver(d, loc, PassOver(c, loc, PassOver(b, loc, PassOver(a, loc, s))))
  }

  /** In whatever order the four passes are made, they do what one scan for all of them does. */
  lemma AnyOrderWeaves(a: Pass, b: Pass, c: Pass, d: Pass, loc: string, s: string)
    requires a != b && a != c && a != d && b != c && b != d && c != d && Independent(loc)
    ensures Passes(a, b, c, d, loc, s) == Weave({a, b, c, d}, loc, s)
  {
    var s1 := PassOver(a, loc, s);
    var s2 := PassOver(b, loc, s1);
    var s3 := PassOver(c, loc, s2);
    PassIsWeave(a, loc, s);
    PassIsWeave(b, loc, s1);
    PassIsWeave(c, loc, s2);
    PassIsWeave(d, loc, s3);
    PassJoins({a}, b, loc, s);
    PassJoins({a} + {b}, c, loc, s);
    PassJoins({a} + {b} + {c}, d, loc, s);
    assert {a} + {b} + {c} + {d} == {a, b, c, d};
  }

  /** The four passes are independent: every order gives the body that the source's order gives. */
  lemma OrderDoesNotMatter(a: Pass, b: Pass, c: Pass, d: Pass, loc: string, s: string)
    requires a != b && a != c && a != d && b != c && b != d && c != d && Independent(loc)
    ensures Passes(a, b, c, d, loc, s) == Passes(Href, Src, UrlQuoted, UrlBare, loc, s)
  {
    AnyOrderWeaves(a, b, c, d, loc, s);
    AnyOrderWeaves(Href, Src, UrlQuoted, UrlBare, loc, s);
    assert {a, b, c, d} == {Href, Src, UrlQuoted, UrlBare} by { FourPasses(a, b, c, d); }
  }

  lemma FourPasses(a: Pass, b: Pass, c: Pass, d: Pass)
    requires a != b && a != c && a != d && b != c && b != d && c != d
    ensures {a, b, c, d} == {Href, Src, UrlQuoted, UrlBare}
  {
    var s := {a, b, c, d};
    assert Href in s && Src in s && UrlQuoted in s && UrlBare in s;
  }

  // ----- exactly these locations -----

  /** A pass makes a page longer by the location, at least, if it inserts somewhere. */
  lemma {:induction false} WeaveGrows(j: Pass, loc: string, s: string, k: nat)
    requires k <= |s|
    ensures |Weave({j}, loc, s)| >= |s|
    ensures Site(j, s[k..]) ==> |Weave({j}, loc, s)| >= |s| + |loc|
    decreases |s|
  {
    assert s[0..] == s;
    FromChars(j);
    if AnySite({j}, s) {
      var rest := SplitAt(From(j), s);
      WeaveAt({j}, loc, j, rest);
      WeaveGrows(j, loc, rest, 0);
    } else if s != "" {
      WeaveElse({j}, loc, s);
      WeaveGrows(j, loc, s[1..], if k == 0 then 0 else k - 1);
      assert k > 0 ==> s[1..][k - 1..] == s[k..];
    }
  }

  /** A page with nothing on it but a match of pass `i`. */
  function OneMatch(i: Pass): string { From(i) + "x" }

  lemma OneMatchPassed(i: Pass, p: Pass, loc: string)
    ensures PassOver(p, loc, OneMatch(i)) == if p == i then Written(i, loc) + "x" else OneMatch(i)
  {
    var s := OneMatch(i);
    FromChars(i);
    FromChars(p);
    PassIsWeave(p, loc, s);
    assert !AnySite({p}, "x");
    WeaveElse({p}, loc, "x");
    if p == i {
      WeaveAt({p}, loc, p, "x");
    } else {
      assert s[0..] == s;
      NoSiteInsideFrom({p}, i, "x");
      if Site(p, s) {
        OnlyOneSite(p, i, s);
      }
      WeaveCopies({p}, loc, s, |From(i)|);
      assert s[..|From(i)|] == From(i) && s[|From(i)|..] == "x";
    }
  }

  lemma NothingInsideMatch(i: Pass, j: Pass)
    requires i != j
    ensures Clear(i, j, "")
  {
    assert Written(i, "") == From(i);
    var u := From(i);
    FromChars(i);
    FromChars(j);
    forall k | 0 <= k <= |u| ensures !Site(j, u[k..]) {
      if k == 0 && Site(j, u) {
        OnlyOneSite(i, j, u);
      } else if 0 < k < |u| {
        assert u[k..][0] == u[k];
        Differ(From(j), u[k..], 0);
      }
    }
  }

  /** If a pass inserts in what another writes, their order matters on the page with one match. */
  lemma OrderMatters(i: Pass, j: Pass, c: Pass, d: Pass, loc: string)
    requires !Clear(i, j, loc)
    requires i != j && i != c && i != d && j != c && j != d && c != d
    ensures Passes(c, d, i, j, loc, OneMatch(i)) != Passes(c, d, j, i, loc, OneMatch(i))
  {
    var u := Written(i, loc);
    var k :| 0 <= k <= |u| && Site(j, u[k..]);
    OneMatchPassed(i, c, loc);
    OneMatchPassed(i, d, loc);
    OneMatchPassed(i, j, loc);
    OneMatchPassed(i, i, loc);
    SameSite(j, u, "x", k);
    PassIsWeave(j, loc, u + "x");
    WeaveGrows(j, loc, u + "x", k);
    if loc == "" {
      NothingInsideMatch(i, j);
    }
  }

  predicate Distinct(a: Pass, b: Pass, c: Pass, d: Pass) {
    a != b && a != c && a != d && b != c && b != d && c != d
  }

  /** The passes give the same on every page in every order. */
  ghost predicate OrderFree(loc: string) {
    forall a, b, c, d, s :: Distinct(a, b, c, d) ==>
      Passes(a, b, c, d, loc, s) == Passes(Href, Src, UrlQuoted, UrlBare, loc, s)
  }

  /** Those are exactly the locations for which the order of the passes never matters. */
  lemma OrderFreeExactlyIfIndependent(loc: string)
    ensures OrderFree(loc) <==> Independent(loc)
  {
    if Independent(loc) {
      forall a, b, c, d, s | Distinct(a, b, c, d)
        ensures Passes(a, b, c, d, loc, s) == Passes(Href, Src, UrlQuoted, UrlBare, loc, s)
      {
        OrderDoesNotMatter(a, b, c, d, loc, s);
      }
    } else {
      var i, j :| i != j && !Clear(i, j, loc);
      var c, d := OtherTwo(i, j);
      OrderMatters(i, j, c, d, loc);
      assert Distinct(c, d, i, j) && Distinct(c, d, j, i);
    }
  }

  lemma OtherTwo(i: Pass, j: Pass) returns (c: Pass, d: Pass)
    requires i != j
    ensures Distinct(c, d, i, j)
  {
    c := if Href != i && Href != j then Href else if Src != i && Src != j then Src else UrlQuoted;
    d := if UrlBare != i && UrlBare != j then UrlBare else if UrlQuoted != i && UrlQuoted != j then UrlQuoted else Src;
  }

  /** They include all locations without quotes and brackets. */
  lemma PlainIsIndependent(loc: string)
    requires IsPlain(loc)
    ensures Independent(loc)
  {
    forall i, j | i != j ensures Clear(i, j, loc) {
      forall k | 0 <= k <= |Written(i, loc)| ensures !Site(j, Written(i, loc)[k..]) {
        PlainIsClear(i, j, loc, k);
      }
    }
  }

  lemma WrittenChars(i: Pass, loc: string, k: nat)
    requires IsPlain(loc) && k < |Written(i, loc)|
    ensures if k < |Prefix(i)| then Written(i, loc)[k] == Prefix(i)[k]
            else Written(i, loc)[k] != '"' && Written(i, loc)[k] != '('
  {
    var n := |Prefix(i)|;
    if n <= k < n + |loc| {
      assert Written(i, loc)[k] == loc[k - n];
    } else if n + |loc| <= k {
      assert Written(i, loc)[k] == Separator(i)[k - n - |loc|];
    }
  }

  lemma PrefixChars(p: Pass)
    ensures var n := |Prefix(p)|; |From(p)| > n >= 4
    ensures forall k :: 0 <= k < |Prefix(p)| ==> From(p)[k] == Prefix(p)[k]
    ensures forall k :: 0 <= k < |Prefix(p)| - 1 ==> Prefix(p)[k] != '"' && (Prefix(p)[k] != '(' || (p.UrlQuoted? && k == 3))
    ensures var n := |Prefix(p)|;
            From(p)[n] == (if p.UrlBare? then '\\' else '/') &&
            Prefix(p)[n - 1] == (if p.UrlBare? then '(' else '"') &&
            Prefix(p)[n - 3] == match p case Href => 'f' case Src => 'c' case UrlQuoted => 'l' case UrlBare => 'r'
  {
    match p
    case Href => assert Prefix(p) == "href=\"" && From(p) == "href=\"/";
    case Src => assert Prefix(p) == "src=\"" && From(p) == "src=\"/";
    case UrlQuoted => assert Prefix(p) == "url(\"" && From(p) == "url(\"/";
    case UrlBare => assert Prefix(p) == "url(" && From(p) == "url(\\2f ";
  }

  lemma PlainIsClear(i: Pass, j: Pass, loc: string, k: nat)
    requires i != j && IsPlain(loc) && k <= |Written(i, loc)|
    ensures !(From(j) <= Written(i, loc)[k..])
  {
    var u, e := Written(i, loc), |Prefix(j)| - 1;
    PrefixChars(i);
    PrefixChars(j);
    var m := if k + e == |Prefix(i)| - 1 then e - 2 else if j.UrlBare? && i.UrlQuoted? && k + e == 3 then 4 else e;
    if k + m < |u| {
      WrittenChars(i, loc, k + m);
      assert u[k..][m] == u[k + m];
    }
    Differ(From(j), u[k..], m);
  }

  /** They are not all: a link into such a location gets it twice, or not, depending on the order. */
  lemma NotEveryLocationIsIndependent()
    ensures !Independent("/src=\"/a")
    ensures Passes(UrlQuoted, UrlBare, Href, Src, "/src=\"/a", "href=\"/x") !=
            Passes(UrlQuoted, UrlBare, Src, Href, "/src=\"/a", "href=\"/x")
  {
    var loc := "/src=\"/a";
    var u := Written(Href, loc);
    assert u == "href=\"/src=\"/a/" && From(Src) == "src=\"/" && OneMatch(Href) == "href=\"/x";
    assert u[7..] == "src=\"/a/" && u[7..][|From(Src)|..] == "a/";
    assert Site(Src, u[7..]);
    assert !Clear(Href, Src, loc);
    OrderMatters(Href, Src, UrlQuoted, UrlBare, loc);
  }

  // ----- links -----

  /** Before a match, the scan does something of its own, and then goes on at the match. */
  lemma {:induction false} WeaveSplits(ps: set<Pass>, loc: string, p: Pass, front: string, s: string) returns (pre: string)
    requires From(p) <= s
    ensures Weave(ps, loc, front + s) == pre + Weave(ps, loc, s)
    decreases |front|
  {
    var all := front + s;
    if front == "" {
      pre := "";
      assert all == s && "" + Weave(ps, loc, s) == Weave(ps, loc, s);
    } else if AnySite(ps, all) {
      var q := SiteOf(ps, all);
      MatchEndsBefore(q, p, front, s);
      var n := |From(q)|;
      var rest := SplitAt(From(q), all);
      CutInFront(front, s, n);
      FromChars(q);
      pre := WeaveSplits(ps, loc, p, front[n..], s);
      WeaveAt(ps, loc, q, rest);
      Assoc(Written(q, loc), pre, Weave(ps, loc, s));
      pre := Written(q, loc) + pre;
    } else {
      CutInFront(front, s, 1);
      pre := WeaveSplits(ps, loc, p, front[1..], s);
      WeaveElse(ps, loc, all);
      Assoc([all[0]], pre, Weave(ps, loc, s));
      pre := [all[0]] + pre;
    }
  }

  lemma MatchEndsBefore(q: Pass, p: Pass, front: string, s: string)
    requires front != "" && From(p) <= s && From(q) <= front + s
    ensures |From(q)| <= |front|
  {
    FromChars(p);
    FromChars(q);
    var n := |front|;
    assert (front + s)[n] == From(p)[0];
    assert forall k :: 0 <= k < |From(q)| ==> (front + s)[k] == From(q)[k];
  }

  /** A text without quotes and brackets is copied up to the quote that ends it. */
  lemma {:induction false} LinkCopied(ps: set<Pass>, loc: string, link: string, tail: string) returns (post: string)
    requires IsPlain(link)
    ensures Weave(ps, loc, (link + "\"") + tail) == (link + "\"") + post
    decreases |link|
  {
    var quoted := link + "\"";
    var s := quoted + tail;
    if AnySite(ps, s) {
      var q := SiteOf(ps, s);
      QuoteEndsPrefix(q, link, tail);
      var rest := SplitAt(From(q), s);
      FromChars(q);
      WeaveAt(ps, loc, q, rest);
      post := loc + Separator(q) + Weave(ps, loc, rest);
      Assoc(Prefix(q), loc, Separator(q));
      Assoc(Prefix(q), loc + Separator(q), Weave(ps, loc, rest));
      assert Weave(ps, loc, s) == quoted + post;
    } else if link == "" {
      WeaveElse(ps, loc, s);
      post := Weave(ps, loc, s[1..]);
    } else {
      HeadTail(link);
      assert s[1..] == (link[1..] + "\"") + tail;
      post := LinkCopied(ps, loc, link[1..], tail);
      WeaveElse(ps, loc, s);
      Assoc([s[0]], link[1..], "\"");
      Assoc([s[0]], link[1..] + "\"", post);
    }
  }

  /** A match that begins in such a text has the quote at its end as the end of its prefix. */
  lemma QuoteEndsPrefix(q: Pass, link: string, tail: string)
    requires IsPlain(link) && From(q) <= (link + "\"") + tail
    ensures Prefix(q) == link + "\""
  {
    var s, n := (link + "\"") + tail, |Prefix(q)|;
    PrefixChars(q);
    assert s[..n] == Prefix(q);
    assert s[|link|] == '"';
    assert forall k :: 0 <= k < |link| ==> s[k] == link[k];
    assert forall k :: 0 <= k < n ==> s[k] == Prefix(q)[k];
    assert n - 1 == |link|;
    assert s[..n] == link + "\"";
  }

  /** Every link of a page that begins with a single slash gets the location in front, wherever it
      stands and whatever else is on the page. */
  lemma LinkGetsLocation(p: Pass, loc: string, front: string, link: string, tail: string)
    returns (pre: string, post: string)
    requires !p.UrlBare? && Independent(loc) && IsPlain(link) && (link != "" ==> link[0] != '/')
    ensures Prefix(p) == match p case Href => "href=\"" case Src => "src=\"" case _ => "url(\""
    ensures Passes(Href, Src, UrlQuoted, UrlBare, loc, front + (Prefix(p) + "/" + (link + "\"" + tail))) ==
            pre + (Prefix(p) + loc + "/" + (link + "\"" + post))
  {
    var rest := link + "\"" + tail;
    var s := Prefix(p) + "/" + rest;
    var all := {Href, Src, UrlQuoted, UrlBare};
    AnyOrderWeaves(Href, Src, UrlQuoted, UrlBare, loc, front + s);
    pre := WeaveSplits(all, loc, p, front, s);
    WeaveAt(all, loc, p, rest);
    post := LinkCopied(all, loc, link, tail);
  }

  // ----- single links -----

  /** What is looked for, and what is written. */
  lemma Texts(loc: string)
    ensures From(Href) == "href=\"/" && Written(Href, loc) == "href=\"" + loc + "/"
    ensures From(Src) == "src=\"/" && Written(Src, loc) == "src=\"" + loc + "/"
    ensures From(UrlQuoted) == "url(\"/" && Written(UrlQuoted, loc) == "url(\"" + loc + "/"
    ensures From(UrlBare) == "url(\\2f " && Written(UrlBare, loc) == "url(" + loc + "\\2f "
  {
  }

  /** No match begins in a text without quotes and brackets, and none ends in it. */
  lemma NoSiteInPlain(ps: set<Pass>, text: string)
    requires IsPlain(text)
    ensures forall k :: 0 <= k <= |text| ==> !AnySite(ps, text[k..])
  {
    forall k, q | 0 <= k <= |text| && q in ps ensures !Site(q, text[k..]) {
      NoMatchInPlain(q, text, k);
    }
  }

  lemma NoMatchInPlain(q: Pass, text: string, k: nat)
    requires IsPlain(text) && k <= |text|
    ensures !(From(q) <= text[k..])
  {
    var n := |Prefix(q)| - 1;
    PrefixChars(q);
    if k + n < |text| {
      assert text[k..][n] == text[k + n] && text[k + n] in text;
    }
    Differ(From(q), text[k..], n);
  }

  lemma PlainCopied(ps: set<Pass>, loc: string, text: string)
    requires IsPlain(text)
    ensures Weave(ps, loc, text) == text
  {
    NoSiteInPlain(ps, text);
    WeaveCopies(ps, loc, text, |text|);
    assert text[..|text|] + "" == text;
  }

  lemma PlainBeforeMatch(ps: set<Pass>, loc: string, front: string, p: Pass, rest: string)
    requires IsPlain(front)
    ensures Weave(ps, loc, front + (From(p) + rest)) == front + Weave(ps, loc, From(p) + rest)
  {
    var m := From(p) + rest;
    forall k, q | 0 <= k < |front| && q in ps ensures !Site(q, (front + m)[k..]) {
      CutInFront(front, m, k);
      if From(q) <= front[k..] + m {
        MatchEndsBefore(q, p, front[k..], m);
        assert (front[k..] + m)[..|From(q)|] == front[k..][..|From(q)|];
        NoMatchInPlain(q, front, k);
      }
    }
    WeaveCopies(ps, loc, front + m, |front|);
    assert (front + m)[..|front|] == front && (front + m)[|front|..] == m;
  }

  /** On a page with one link to a path and no other quote or bracket, the location comes in front of that
      path and nothing else changes; that goes for all four forms of a link. */
  lemma OnlyLinkGetsLocation(p: Pass, loc: string, front: string, rest: string)
    requires Independent(loc) && IsPlain(front) && IsPlain(rest) && (rest != "" ==> rest[0] != '/')
    ensures Passes(Href, Src, UrlQuoted, UrlBare, loc, front + (From(p) + rest)) == front + (Written(p, loc) + rest)
  {
    var all := {Href, Src, UrlQuoted, UrlBare};
    AnyOrderWeaves(Href, Src, UrlQuoted, UrlBare, loc, front + (From(p) + rest));
    PlainBeforeMatch(all, loc, front, p, rest);
    WeaveAt(all, loc, p, rest);
    PlainCopied(all, loc, rest);
  }

  /** A page without such links stays as it is. */
  lemma OtherPagesStay(loc: string, body: string)
    requires !Contains(body, "href=\"/") && !Contains(body, "src=\"/") && !Contains(body, "url(\"/") && !Contains(body, "url(\\2f ")
    ensures Passes(Href, Src, UrlQuoted, UrlBare, loc, body) == body
  {
    Texts(loc);
    NothingToDo(Href, loc, body);
    NothingToDo(Src, loc, body);
    NothingToDo(UrlQuoted, loc, body);
    NothingToDo(UrlBare, loc, body);
  }

  lemma NothingToDo(p: Pass, loc: string, body: string)
    requires !Contains(body, From(p))
    ensures PassOver(p, loc, body) == body
  {
    PassIsWeave(p, loc, body);
    forall k | 0 <= k < |body| ensures !AnySite({p}, body[k..]) {
    }
    WeaveCopies({p}, loc, body, |body|);
    assert body[..|body|] + "" == body;
  }
}
