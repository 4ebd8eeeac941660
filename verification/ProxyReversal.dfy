/** Undoing the rewriting of absolute paths. */
module ProxyReversal {
  import opened ProxyRewrite
  import opened Sequences

  /** Replaces every occurrence of `from`, from left to right. */
  function ReplaceAll(from: string, to: string, s: string): string
    requires from != ""
    decreases |s|
  {
    if from <= s then to + ReplaceAll(from, to, s[|from|..])
    else if s == "" then ""
    else [s[0]] + ReplaceAll(from, to, s[1..])
  }

  /** Takes `loc` out again between `prefix` and `sep`. */
  function Undo(prefix: string, loc: string, sep: string, s: string): string
    requires prefix != ""
  {
    ReplaceAll(prefix + loc + sep, prefix + sep, s)
  }

  /** The locations that are inserted before a slash: normal forms of paths are such. */
  predicate IsLocation(loc: string) { loc == "" || (|loc| >= 2 && loc[0] == '/' && loc[1] != '/') }

  lemma ReplaceAllAt(from: string, to: string, rest: string)
    requires from != ""
    ensures ReplaceAll(from, to, from + rest) == to + ReplaceAll(from, to, rest)
  {
    assert (from + rest)[|from|..] == rest;
  }

  lemma {:induction false} ReplaceAllUpTo(from: string, to: string, s: string, n: nat)
    requires from != "" && n <= |s| && NoneBefore(from, s, n)
    ensures ReplaceAll(from, to, s) == s[..n] + ReplaceAll(from, to, s[n..])
    decreases n
  {
    assert s[0..] == s;
    if n > 0 {
      var t := s[1..];
      forall k | 0 <= k < n - 1 ensures !(from <= t[k..]) {
        assert t[k..] == s[k + 1..];
      }
      ReplaceAllUpTo(from, to, t, n - 1);
      TakeOneMore(s, n, ReplaceAll(from, to, s[n..]));
    }
  }

  lemma ReplaceAllCopies(from: string, to: string, u: string, rest: string)
    requires from != "" && NoneBefore(from, u + rest, |u|)
    ensures ReplaceAll(from, to, u + rest) == u + ReplaceAll(from, to, rest)
  {
    ReplaceAllUpTo(from, to, u + rest, |u|);
    assert (u + rest)[..|u|] == u && (u + rest)[|u|..] == rest;
  }

  lemma {:induction false} ReplaceByItself(from: string, s: string)
    requires from != ""
    ensures ReplaceAll(from, from, s) == s
    decreases |s|
  {
    if from <= s {
      var rest := SplitAt(from, s);
      ReplaceByItself(from, rest);
    } else if s != "" {
      ReplaceByItself(from, s[1..]);
      HeadTail(s);
    }
  }

  lemma {:induction false} EmptyLocationChangesNothing(prefix: string, sep: string, s: string)
    requires prefix != ""
    ensures Rewrite(prefix, "", sep, s) == s
    decreases |s|
  {
    assert prefix + "" == prefix;
    if prefix + sep <= s {
      EmptyLocationChangesNothing(prefix, sep, s[|prefix + sep|..]);
    } else if s != "" {
      EmptyLocationChangesNothing(prefix, sep, s[1..]);
    }
  }

  lemma RewriteAt(prefix: string, loc: string, sep: string, rest: string)
    requires prefix != ""
    ensures var w := Rewrite(prefix, loc, sep, rest);
            Rewrite(prefix, loc, sep, prefix + sep + rest) ==
            if BeginsSlash(rest) then prefix + sep + w else prefix + loc + sep + w
  {
    Unfold(loc, prefix, sep, rest);
  }

  lemma SplitAt(front: string, s: string) returns (rest: string)
    requires front <= s
    ensures s == front + rest && rest == s[|front|..]
  {
    rest := s[|front|..];
  }

  // ----- before a slash -----

  /** Where the output has a slash-free text and a slash, the input had them too. */
  lemma {:induction false} FirstSlashKept(prefix: string, loc: string, s: string, w: string)
    requires prefix != "" && '/' !in prefix && IsLocation(loc) && '/' !in w
    requires w + "/" <= Rewrite(prefix, loc, "/", s)
    ensures w + "/" <= s
    decreases |s|
  {
    var r := Rewrite(prefix, loc, "/", s);
    if prefix + "/" <= s {
      var rest := SplitAt(prefix + "/", s);
      RewriteAt(prefix, loc, "/", rest);
      assert prefix + "/" <= r;
      SameFirstSlash(prefix, w, r);
    } else if s != "" {
      assert r[0] == s[0] && r[1..] == Rewrite(prefix, loc, "/", s[1..]);
      if w != "" {
        assert (w + "/")[1..] == w[1..] + "/" && r == [r[0]] + r[1..] && w[0] == s[0];
        FirstSlashKept(prefix, loc, s[1..], w[1..]);
        assert s == [s[0]] + s[1..] && w == [w[0]] + w[1..];
      } else {
        assert (w + "/")[0] == '/';
      }
    }
  }

  lemma SameFirstSlash(v: string, w: string, r: string)
    requires '/' !in v && '/' !in w && v + "/" <= r && w + "/" <= r
    ensures v == w
  {
    assert r[|v|] == (v + "/")[|v|] && r[|w|] == (w + "/")[|w|];
    assert forall i :: 0 <= i < |v| ==> r[i] == (v + "/")[i] == v[i];
    assert forall i :: 0 <= i < |w| ==> r[i] == (w + "/")[i] == w[i];
    assert v == r[..|v|] && w == r[..|w|];
  }

  lemma Differ(w: string, s: string, m: nat)
    requires m < |w| && (m < |s| ==> s[m] != w[m])
    ensures !(w <= s)
  {
  }

  /** A place that is passed over because of a double slash does not look like a rewritten one. */
  lemma SkippedIsNotRewritten(prefix: string, loc: string, rest: string)
    requires prefix != "" && '/' !in prefix && loc != "" && IsLocation(loc) && BeginsSlash(rest)
    ensures NoneBefore(prefix + loc + "/", prefix + "/" + rest, |prefix + "/"|)
  {
    var big, s := prefix + loc + "/", prefix + "/" + rest;
    assert prefix[0] != '/' && s[|prefix|] == '/';
    forall k | 0 <= k < |prefix + "/"| ensures !(big <= s[k..]) {
      var m := if k == 0 then |prefix| + 1 else |prefix| - k;
      assert big[m] == if k == 0 then loc[1] else prefix[m];
      assert s[k..][m] == if k == 0 then rest[0] else s[|prefix|];
      Differ(big, s[k..], m);
    }
  }

  lemma {:induction false} SlashStays(prefix: string, loc: string, sep: string, s: string)
    requires prefix != "" && prefix[0] != '/' && BeginsSlash(s)
    ensures BeginsSlash(Rewrite(prefix, loc, sep, s))
  {
    assert !(prefix + sep <= s) by {
      assert (prefix + sep)[0] == prefix[0];
    }
  }

  /** Rewriting before slashes can be undone, whatever the page is: also where a double slash was
      passed over, and where the page itself mentions the location. */
  lemma {:induction false} RewriteReversible(prefix: string, loc: string, s: string)
    requires prefix != "" && '/' !in prefix && IsLocation(loc)
    ensures Undo(prefix, loc, "/", Rewrite(prefix, loc, "/", s)) == s
    decreases |s|
  {
    var small, big := prefix + "/", prefix + loc + "/";
    var r := Rewrite(prefix, loc, "/", s);
    if loc == "" {
      assert prefix + "" == prefix;
      EmptyLocationChangesNothing(prefix, "/", s);
      ReplaceByItself(small, s);
    } else if small <= s {
      var rest := SplitAt(small, s);
      var w := Rewrite(prefix, loc, "/", rest);
      RewriteAt(prefix, loc, "/", rest);
      RewriteReversible(prefix, loc, rest);
      if BeginsSlash(rest) {
        SlashStays(prefix, loc, "/", rest);
        SkippedIsNotRewritten(prefix, loc, w);
        ReplaceAllCopies(big, small, small, w);
      } else {
        ReplaceAllAt(big, small, w);
      }
    } else if s != "" {
      if big <= r {
        assert prefix + "/" <= big;
        FirstSlashKept(prefix, loc, s, prefix);
      }
      assert r[1..] == Rewrite(prefix, loc, "/", s[1..]);
      RewriteReversible(prefix, loc, s[1..]);
    }
  }

  // ----- before another separator -----

  ghost predicate Contains(s: string, w: string) { exists k :: 0 <= k <= |s| && w <= s[k..] }

  lemma ContainsInTail(s: string, w: string)
    requires s != "" && !(w <= s)
    ensures Contains(s, w) <==> Contains(s[1..], w)
  {
    var tail := s[1..];
    if Contains(tail, w) {
      var k :| 0 <= k <= |tail| && w <= tail[k..];
      assert tail[k..] == s[k + 1..];
    }
    if Contains(s, w) {
      var k :| 0 <= k <= |s| && w <= s[k..];
      assert s[0..] == s;
      assert tail[k - 1..] == s[k..];
    }
  }

  lemma {:induction false} ReplaceAllShrinks(from: string, to: string, s: string)
    requires |to| < |from|
    ensures |ReplaceAll(from, to, s)| <= |s|
    ensures ReplaceAll(from, to, s) == s <==> !Contains(s, from)
    decreases |s|
  {
    assert s[0..] == s;
    if from <= s {
      ReplaceAllShrinks(from, to, s[|from|..]);
    } else if s != "" {
      ReplaceAllShrinks(from, to, s[1..]);
      ContainsInTail(s, from);
      ConsEqual(s[0], ReplaceAll(from, to, s[1..]), s);
    }
  }

  const URL := "url("
  const ESCAPED_SLASH := "\\2f "
}
