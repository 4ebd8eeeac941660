/** The rewriting of absolute paths in proxied pages: `replaced_absolute_paths`, which edits a
    growing string in place, and the text transformation it performs. */
module ProxyRewrite {
  import opened Sequences

  /** A double slash after the match begins a host, not a path. */
  predicate BeginsSlash(s: string) { s != "" && s[0] == '/' }

  /** Puts `loc` between `prefix` and `sep` at every occurrence of the two that no slash follows,
      from left to right. */
  function Rewrite(prefix: string, loc: string, sep: string, s: string): string
    requires prefix + sep != ""
    decreases |s|
  {
    if prefix + sep <= s then
      var rest := s[|prefix + sep|..];
      (if BeginsSlash(rest) then prefix + sep else prefix + loc + sep) + Rewrite(prefix, loc, sep, rest)
    else if s == "" then ""
    else [s[0]] + Rewrite(prefix, loc, sep, s[1..])
  }

  /** The number of places where `Rewrite` inserts. */
  function Sites(prefix: string, sep: string, s: string): nat
    requires prefix + sep != ""
    decreases |s|
  {
    if prefix + sep <= s then
      var rest := s[|prefix + sep|..];
      (if BeginsSlash(rest) then 0 else 1) + Sites(prefix, sep, rest)
    else if s == "" then 0
    else Sites(prefix, sep, s[1..])
  }

  lemma {:induction false} RewriteLength(prefix: string, loc: string, sep: string, s: string)
    requires prefix + sep != ""
    ensures |Rewrite(prefix, loc, sep, s)| == |s| + Sites(prefix, sep, s) * |loc|
    decreases |s|
  {
    if prefix + sep <= s {
      var rest := s[|prefix + sep|..];
      RewriteLength(prefix, loc, sep, rest);
      assert (1 + Sites(prefix, sep, rest)) * |loc| == |loc| + Sites(prefix, sep, rest) * |loc|;
    } else if s != "" {
      RewriteLength(prefix, loc, sep, s[1..]);
    }
  }

  /** No occurrence of `from` begins in the first `n` places of `s`. */
  predicate NoneBefore(from: string, s: string, n: nat)
    requires n <= |s|
  {
    forall k :: 0 <= k < n ==> !(from <= s[k..])
  }

  /** Up to the first occurrence the text is copied. */
  lemma {:induction false} CopiedUpTo(prefix: string, loc: string, sep: string, s: string, n: nat)
    requires prefix + sep != "" && n <= |s| && NoneBefore(prefix + sep, s, n)
    ensures Rewrite(prefix, loc, sep, s) == s[..n] + Rewrite(prefix, loc, sep, s[n..])
    decreases n
  {
    assert s[0..] == s;
    if n > 0 {
      var t := s[1..];
      forall k | 0 <= k < n - 1 ensures !(prefix + sep <= t[k..]) {
        assert t[k..] == s[k + 1..];
      }
      CopiedUpTo(prefix, loc, sep, t, n - 1);
      TakeOneMore(s, n, Rewrite(prefix, loc, sep, s[n..]));
    }
  }

  // ----- the in-place loop -----

  /** `std::string::find`: the first occurrence of `from` at or after `pos`, if there is one. */
  method Find(s: string, from: string, pos: nat) returns (found: bool, k: nat)
    requires pos <= |s|
    ensures k <= |s| && pos <= k && NoneBefore(from, s[pos..], k - pos)
    ensures found ==> from <= s[k..]
    ensures !found ==> k == |s| && !(from <= s[k..])
  {
    k := pos;
    while k < |s|
      invariant pos <= k <= |s| && NoneBefore(from, s[pos..], k - pos)
    {
      if from <= s[k..] {
        return true, k;
      }
      assert s[pos..][k - pos..] == s[k..];
      k := k + 1;
    }
    found := from <= s[k..];
  }

  method ReplacedAbsolutePaths(location: string, body: string, prefix: string, separator: string)
    returns (new_body: string)
    requires prefix + separator != ""
    ensures new_body == Rewrite(prefix, location, separator, body)
  {
    new_body := body;
    var from, to := prefix + separator, prefix + location + separator;
    var pos: nat := 0;
    while true
      invariant pos <= |new_body|
      invariant new_body[..pos] + Rewrite(prefix, location, separator, new_body[pos..]) ==
                Rewrite(prefix, location, separator, body)
      decreases |new_body| - pos
    {
      var found, k := Find(new_body, from, pos);
      Advance(location, prefix, separator, new_body, pos, k);
      if !found {
        break;
      }
      pos := k;
      var suffix := pos + |from|;
      ReplaceStep(location, prefix, separator, new_body, pos);
      if |new_body| > suffix && new_body[suffix] == '/' {
        pos := suffix;
        continue;
      }
      new_body := new_body[..pos] + to + new_body[suffix..];
      pos := pos + |to|;
    }
  }

  /** What happens at an occurrence: it is passed over, or replaced and passed over. */
  lemma ReplaceStep(loc: string, prefix: string, sep: string, s: string, pos: nat)
    requires prefix + sep != "" && pos <= |s| && prefix + sep <= s[pos..]
    ensures var suffix := pos + |prefix + sep|;
            var before := s[..pos] + Rewrite(prefix, loc, sep, s[pos..]);
            var to := prefix + loc + sep;
            var s', pos' := s[..pos] + to + s[suffix..], pos + |to|;
            if BeginsSlash(s[suffix..]) then before == s[..suffix] + Rewrite(prefix, loc, sep, s[suffix..])
            else before == s'[..pos'] + Rewrite(prefix, loc, sep, s'[pos'..]) && |s'| - pos' == |s| - suffix
  {
    var from, to := prefix + sep, prefix + loc + sep;
    var suffix := pos + |from|;
    var front, rest := s[..pos], s[suffix..];
    assert s[pos..] == from + rest;
    Unfold(loc, prefix, sep, rest);
    var w := Rewrite(prefix, loc, sep, rest);
    Assoc(front, from, w);
    Assoc(front, to, w);
    assert s[..suffix] == front + from;
    assert (front + to + rest)[..pos + |to|] == front + to && (front + to + rest)[pos + |to|..] == rest;
  }

  /** Moving to the next occurrence keeps the invariant of the loop. */
  lemma Advance(loc: string, prefix: string, sep: string, s: string, pos: nat, k: nat)
    requires prefix + sep != "" && pos <= k <= |s| && NoneBefore(prefix + sep, s[pos..], k - pos)
    ensures s[..pos] + Rewrite(prefix, loc, sep, s[pos..]) == s[..k] + Rewrite(prefix, loc, sep, s[k..])
  {
    CopiedUpTo(prefix, loc, sep, s[pos..], k - pos);
    CutBetween(s, pos, k, Rewrite(prefix, loc, sep, s[k..]));
  }

  lemma Unfold(loc: string, prefix: string, sep: string, rest: string)
    requires prefix + sep != ""
    ensures Rewrite(prefix, loc, sep, prefix + sep + rest) ==
            (if BeginsSlash(rest) then prefix + sep else prefix + loc + sep) + Rewrite(prefix, loc, sep, rest)
  {
    assert (prefix + sep + rest)[|prefix + sep|..] == rest;
  }
}
