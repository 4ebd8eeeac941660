/** Whole runs of the configuration parser: what stays of the tree while it is built, what is left
    of it when the file is refused, and on which files the behaviour is defined. */
module ConfigRuns {
  import opened ConfigLexer
  import opened ConfigGrammar
  import opened Sequences

  // ----- the tree at the end of a run -----

  /** The whole tree while blocks are open: each block belongs to the last statement of the block
      around it. */
  function Collapsed(outer: seq<seq<Stmt>>, top: seq<Stmt>): seq<Stmt>
    requires [] !in outer
    decreases |outer|
  {
    if outer == [] then top
    else
      var n := |outer| - 1;
      assert outer[n] in outer;
      Collapsed(outer[..n], WithChild(outer[n], Block(top)))
  }

  /** The tree that is there when the parser stops, whether or not it accepts. */
  function Left(outer: seq<seq<Stmt>>, top: seq<Stmt>, last: TokenType, ts: seq<Token>): seq<Stmt>
    requires Consistent(outer, top, last)
    decreases |ts|
  {
    if ts == [] then Collapsed(outer, top)
    else if ts[0].Note? then Left(outer, top, last, ts[1..])
    else
      match Step(outer, top, last, ts[0])
      case Halt(_) => Collapsed(outer, top)
      case Go(outer', top') => Left(outer', top', TypeOf(ts[0]), ts[1..])
  }

  /** The tree after a text has been parsed into a configuration that holds `base`. */
  function LeftOf(base: seq<Stmt>, s: string): seq<Stmt> { Left([], base, Start, Tokens(s)) }

  /** An accepted file leaves the tree that is accepted. */
  lemma {:induction false} AcceptedIsLeft(outer: seq<seq<Stmt>>, top: seq<Stmt>, last: TokenType, ts: seq<Token>)
    requires Consistent(outer, top, last) && Machine(outer, top, last, ts).Accept?
    ensures Left(outer, top, last, ts) == Machine(outer, top, last, ts).block
    decreases |ts|
  {
    if ts[0].Note? {
      AcceptedIsLeft(outer, top, last, ts[1..]);
    } else {
      var m := Step(outer, top, last, ts[0]);
      if m.Go? {
        AcceptedIsLeft(m.outer, m.top, TypeOf(ts[0]), ts[1..]);
      }
    }
  }

  /** `Left` on a text, one token at a time. */
  lemma NextLeft(outer: seq<seq<Stmt>>, top: seq<Stmt>, last: TokenType, text: string)
    requires Consistent(outer, top, last)
    ensures var l := Lex(text); var t := TokenOf(l);
            Left(outer, top, last, Tokens(text)) ==
            if t.Note? then Left(outer, top, last, Tokens(l.rest))
            else
              match Step(outer, top, last, t)
              case Halt(_) => Collapsed(outer, top)
              case Go(outer', top') => Left(outer', top', TypeOf(t), Tokens(l.rest))
  {
    var l := Lex(text);
    if !TokenOf(l).End? && !TokenOf(l).Bad? {
      TokensStep(text, l);
      assert Tokens(text)[1..] == Tokens(l.rest);
    }
  }

  // ----- complete statements stay -----

  /** In `block`, each stacked block but its last statement stands where the stack has it: at the
      root, and then in the block of the last statement of the one before; `done` begins the
      innermost. */
  predicate Stands(outer: seq<seq<Stmt>>, done: seq<Stmt>, block: seq<Stmt>)
    requires [] !in outer
    decreases |outer|
  {
    if outer == [] then done <= block
    else
      assert outer[0] in outer;
      var n := |outer[0]| - 1;
      outer[0][..n] <= block && n < |block| && block[n].tokens == outer[0][n].tokens && block[n].child.Block? &&
      Stands(outer[1..], done, block[n].child.stmts)
  }

  /** The statements of the innermost block that are complete. */
  function Completed(top: seq<Stmt>, last: TokenType): seq<Stmt>
    requires EndsStatement(last) ==> top != []
  {
    if EndsStatement(last) then top[..|top| - 1] else top
  }

  /** `ts` carries on a complete statement of a block: the first token after it, or after the end of
      its block, is a quoted one. `below` blocks are around that were open at first, `above` have been
      opened since in the innermost of those; `complete` says that its last token has just completed a
      statement there. */
  predicate CarriesOn(below: nat, above: nat, complete: bool, ts: seq<Token>)
    decreases |ts|
  {
    ts != [] &&
    match ts[0]
    case Note => CarriesOn(below, above, complete, ts[1..])
    case Quoted(_, _) => (above == 0 && complete) || CarriesOn(below, above, false, ts[1..])
    case Open => CarriesOn(below, above + 1, false, ts[1..])
    case Close =>
      if above > 0 then CarriesOn(below, above - 1, false, ts[1..]) else below > 0 && CarriesOn(below - 1, 0, true, ts[1..])
    case End => false
    case _ => CarriesOn(below, above, false, ts[1..])
  }

  lemma {:induction false} CloseStands(outer: seq<seq<Stmt>>, top: seq<Stmt>, block: seq<Stmt>)
    requires outer != [] && [] !in outer
    requires var n := |outer| - 1; outer[n] != [] && Stands(outer[..n], WithChild(outer[n], Block(top)), block)
    ensures Stands(outer, top, block)
    decreases |outer|
  {
    if |outer| > 1 {
      var n := |outer| - 1;
      assert outer[0] in outer;
      assert outer[..n][1..] == outer[1..][..n - 1];
      CloseStands(outer[1..], top, block[|outer[0]| - 1].child.stmts);
    } else {
      var x, y := outer[0], WithChild(outer[0], Block(top));
      assert x[..|x| - 1] == y[..|x| - 1];
    }
  }

  lemma {:induction false} LessStands(outer: seq<seq<Stmt>>, less: seq<Stmt>, done: seq<Stmt>, block: seq<Stmt>)
    requires [] !in outer && less <= done && Stands(outer, done, block)
    ensures Stands(outer, less, block)
    decreases |outer|
  {
    if outer != [] {
      LessStands(outer[1..], less, done, block[|outer[0]| - 1].child.stmts);
    }
  }

  lemma {:induction false} CollapsedStands(outer: seq<seq<Stmt>>, top: seq<Stmt>)
    requires [] !in outer
    ensures Stands(outer, top, Collapsed(outer, top))
    decreases |outer|
  {
    if outer != [] {
      var n := |outer| - 1;
      assert outer[n] in outer;
      CollapsedStands(outer[..n], WithChild(outer[n], Block(top)));
      CloseStands(outer, top, Collapsed(outer, top));
    }
  }

  function Front(x: seq<Stmt>): seq<Stmt> { if x == [] then [] else x[..|x| - 1] }

  lemma {:induction false} StandsBelow(outer: seq<seq<Stmt>>, done: seq<Stmt>, block: seq<Stmt>, below: nat)
    requires [] !in outer && below < |outer| && Stands(outer, done, block)
    ensures Stands(outer[..below], Front(outer[below]), block)
    decreases below
  {
    if below > 0 {
      StandsBelow(outer[1..], done, block[|outer[0]| - 1].child.stmts, below - 1);
      assert outer[..below][1..] == outer[1..][..below - 1];
    }
  }

  /** Of the block with `below` blocks around it, the statements that have been complete throughout. */
  function Lowest(outer: seq<seq<Stmt>>, top: seq<Stmt>, below: nat, complete: bool): seq<Stmt>
    requires below <= |outer|
  {
    if below < |outer| then Front(outer[below]) else if complete then top else Front(top)
  }

  /** The condition after one more token, unless it is the one that carries on. */
  lemma CarriesStep(outer: seq<seq<Stmt>>, top: seq<Stmt>, last: TokenType, ts: seq<Token>, below: nat, complete: bool)
    requires Consistent(outer, top, last) && below <= |outer| && (complete ==> below == |outer|)
    requires ts != [] && Step(outer, top, last, ts[0]).Go?
    ensures var m, closes := Step(outer, top, last, ts[0]), ts[0].Close? && below == |outer|;
            var below1 := if closes then below - 1 else below;
            0 <= below1 <= |m.outer| && (closes ==> below1 == |m.outer| && m.top != []) &&
            (CarriesOn(below, |outer| - below, complete, ts) <==>
             (ts[0].Quoted? && complete) || CarriesOn(below1, |m.outer| - below1, closes, ts[1..]))
  {
  }

  lemma {:induction false} NothingCarriedOn(outer: seq<seq<Stmt>>, top: seq<Stmt>, last: TokenType, ts: seq<Token>,
                                            below: nat, complete: bool)
    requires Consistent(outer, top, last) && below <= |outer|
    requires complete ==> below == |outer| && !EndsStatement(last)
    requires !CarriesOn(below, |outer| - below, complete, ts)
    ensures Stands(outer[..below], Lowest(outer, top, below, complete), Left(outer, top, last, ts))
    decreases |ts|
  {
    if ts != [] && ts[0].Note? {
      NothingCarriedOn(outer, top, last, ts[1..], below, complete);
    } else if ts != [] && Step(outer, top, last, ts[0]).Go? {
      var m := Step(outer, top, last, ts[0]);
      var closes := ts[0].Close? && below == |outer|;
      CarriesStep(outer, top, last, ts, below, complete);
      NothingCarriedOn(m.outer, m.top, TypeOf(ts[0]), ts[1..], if closes then below - 1 else below, closes);
      LowestStep(outer, top, last, ts[0], below, complete, Left(outer, top, last, ts));
    } else {
      CollapsedStands(outer, top);
      if below < |outer| {
        StandsBelow(outer, top, Collapsed(outer, top), below);
      } else {
        assert outer[..below] == outer;
        LessStands(outer, Lowest(outer, top, below, complete), top, Collapsed(outer, top));
      }
    }
  }

  lemma LowestStep(outer: seq<seq<Stmt>>, top: seq<Stmt>, last: TokenType, t: Token, below: nat, complete: bool,
                   block: seq<Stmt>)
    requires Consistent(outer, top, last) && below <= |outer| && Step(outer, top, last, t).Go?
    requires complete ==> below == |outer| && !EndsStatement(last) && !t.Quoted?
    requires var m, closes := Step(outer, top, last, t), t.Close? && below == |outer|;
             var below1 := if closes then below - 1 else below;
             below1 <= |m.outer| && Stands(m.outer[..below1], Lowest(m.outer, m.top, below1, closes), block)
    ensures Stands(outer[..below], Lowest(outer, top, below, complete), block)
  {
    var m := Step(outer, top, last, t);
    if t.Close? && below == |outer| {
      assert m.outer[..below - 1] == m.outer && outer[..below] == outer;
      CloseStands(outer, top, block);
      LessStands(outer, Lowest(outer, top, below, complete), top, block);
    } else {
      assert m.outer[..below] == outer[..below];
      LowestGrows(outer, top, last, t, below, complete);
      LessStands(outer[..below], Lowest(outer, top, below, complete), Lowest(m.outer, m.top, below, false), block);
    }
  }

  lemma LowestGrows(outer: seq<seq<Stmt>>, top: seq<Stmt>, last: TokenType, t: Token, below: nat, complete: bool)
    requires Consistent(outer, top, last) && below <= |outer| && Step(outer, top, last, t).Go?
    requires complete ==> below == |outer| && !EndsStatement(last) && !t.Quoted?
    requires !(t.Close? && below == |outer|)
    ensures var m := Step(outer, top, last, t);
            below <= |m.outer| && Lowest(outer, top, below, complete) <= Lowest(m.outer, m.top, below, false)
  {
  }

  // ----- what a later token can do to a statement -----

  /** All statements but the last are the same, and the last has at least the tokens it had. If it was
      complete and has no more tokens, it is the same too. */
  predicate Kept(x: seq<Stmt>, complete: bool, block: seq<Stmt>) {
    x != [] ==>
      var n := |x| - 1;
      n < |block| && x[..n] <= block && x[n].tokens <= block[n].tokens &&
      (complete && block[n].tokens == x[n].tokens ==> block[n] == x[n])
  }

  /** That holds all the way down the stack; below a statement that has got more tokens, nothing is said. */
  predicate AllKept(outer: seq<seq<Stmt>>, top: seq<Stmt>, complete: bool, block: seq<Stmt>)
    requires [] !in outer
    decreases |outer|
  {
    if outer == [] then Kept(top, complete, block)
    else
      assert outer[0] in outer;
      var n := |outer[0]| - 1;
      Kept(outer[0], false, block) &&
      (block[n].tokens == outer[0][n].tokens ==>
        block[n].child.Block? && AllKept(outer[1..], top, complete, block[n].child.stmts))
  }

  lemma {:induction false} OpenKeeps(outer: seq<seq<Stmt>>, top: seq<Stmt>, block: seq<Stmt>)
    requires [] !in outer && top != [] && AllKept(outer + [WithChild(top, NoBlock)], [], true, block)
    ensures AllKept(outer, top, false, block)
    decreases |outer|
  {
    var x := WithChild(top, NoBlock);
    if outer == [] {
      assert x[..|x| - 1] == top[..|top| - 1];
    } else {
      CutInFront(outer, [x], 1);
      var n := |outer[0]| - 1;
      if block[n].tokens == outer[0][n].tokens {
        OpenKeeps(outer[1..], top, block[n].child.stmts);
      }
    }
  }

  lemma {:induction false} CloseKeeps(outer: seq<seq<Stmt>>, top: seq<Stmt>, block: seq<Stmt>)
    requires outer != [] && [] !in outer && outer[|outer| - 1] != []
    requires var n := |outer| - 1; AllKept(outer[..n], WithChild(outer[n], Block(top)), true, block)
    ensures AllKept(outer, top, true, block)
    decreases |outer|
  {
    var n := |outer| - 1;
    if n == 0 {
      var x, y := outer[0], WithChild(outer[0], Block(top));
      assert x[..|x| - 1] == y[..|x| - 1];
    } else {
      assert outer[0] in outer && outer[..n][1..] == outer[1..][..n - 1];
      var k := |outer[0]| - 1;
      if block[k].tokens == outer[0][k].tokens {
        CloseKeeps(outer[1..], top, block[k].child.stmts);
      }
    }
  }

  lemma {:induction false} KeepsLess(outer: seq<seq<Stmt>>, x: seq<Stmt>, xc: bool, y: seq<Stmt>, yc: bool, block: seq<Stmt>)
    requires [] !in outer && AllKept(outer, y, yc, block)
    requires forall b :: Kept(y, yc, b) ==> Kept(x, xc, b)
    ensures AllKept(outer, x, xc, block)
    decreases |outer|
  {
    if outer != [] {
      var n := |outer[0]| - 1;
      if block[n].tokens == outer[0][n].tokens {
        KeepsLess(outer[1..], x, xc, y, yc, block[n].child.stmts);
      }
    }
  }

  lemma {:induction false} CollapsedKeeps(outer: seq<seq<Stmt>>, top: seq<Stmt>)
    requires [] !in outer
    ensures AllKept(outer, top, true, Collapsed(outer, top))
    decreases |outer|
  {
    if outer != [] {
      var n := |outer| - 1;
      assert outer[n] in outer;
      CollapsedKeeps(outer[..n], WithChild(outer[n], Block(top)));
      CloseKeeps(outer, top, Collapsed(outer, top));
    }
  }

  lemma TextKeeps(top: seq<Stmt>, last: TokenType, t: Token, top1: seq<Stmt>, b: seq<Stmt>)
    requires EndsStatement(last) ==> top != []
    requires t.Word? || (t.Quoted? && top != []) || (t.Semi? && EndsStatement(last))
    requires top1 == if t.Semi? then top
                     else if t.Quoted? || EndsStatement(last) then ExtendLast(top, t.text)
                     else top + [Stmt([t.text], NoBlock)]
    requires Kept(top1, !EndsStatement(TypeOf(t)), b)
    ensures Kept(top, !EndsStatement(last), b)
  {
    if t.Word? && !EndsStatement(last) {
      assert top1[..|top|] == top;
    } else if !t.Semi? {
      assert top1[..|top| - 1] == top[..|top| - 1];
      assert |top1[|top| - 1].tokens| > |top[|top| - 1].tokens|;
    }
  }

  lemma {:induction false} LeftKeeps(outer: seq<seq<Stmt>>, top: seq<Stmt>, last: TokenType, ts: seq<Token>)
    requires Consistent(outer, top, last)
    ensures AllKept(outer, top, !EndsStatement(last), Left(outer, top, last, ts))
    decreases |ts|
  {
    if ts != [] && ts[0].Note? {
      LeftKeeps(outer, top, last, ts[1..]);
    } else if ts != [] && Step(outer, top, last, ts[0]).Go? {
      var t, m := ts[0], Step(outer, top, last, ts[0]);
      LeftKeeps(m.outer, m.top, TypeOf(t), ts[1..]);
      if t.Open? {
        OpenKeeps(outer, top, Left(outer, top, last, ts));
      } else if t.Close? {
        CloseKeeps(outer, top, Left(outer, top, last, ts));
      } else {
        var c, c1 := !EndsStatement(last), !EndsStatement(TypeOf(t));
        forall b | Kept(m.top, c1, b) ensures Kept(top, c, b) {
          TextKeeps(top, last, t, m.top, b);
        }
        KeepsLess(outer, top, c, m.top, c1, Left(outer, top, last, ts));
      }
    } else {
      CollapsedKeeps(outer, top);
      KeepsLess(outer, top, !EndsStatement(last), top, true, Collapsed(outer, top));
    }
  }

  /** A statement with one token more than the stack has does not stand. */
  lemma {:induction false} LongerStandsNot(outer: seq<seq<Stmt>>, top: seq<Stmt>, text: string, block: seq<Stmt>)
    requires [] !in outer && top != [] && AllKept(outer, ExtendLast(top, text), false, block)
    ensures !Stands(outer, top, block)
    decreases |outer|
  {
    if outer == [] {
      var n := |top| - 1;
      assert |ExtendLast(top, text)[n].tokens| > |top[n].tokens|;
    } else if Stands(outer, top, block) {
      LongerStandsNot(outer[1..], top, text, block[|outer[0]| - 1].child.stmts);
    }
  }

  /** The first token that is no comment is a quoted one with a legal character behind it. */
  predicate BeginsQuoted(ts: seq<Token>) {
    ts != [] && if ts[0].Note? then BeginsQuoted(ts[1..]) else ts[0].Quoted? && ts[0].separated
  }

  /** If the rest of a file begins with a quoted token, a statement that was complete does not stand,
      whether the file is accepted or not. */
  lemma {:induction false} QuotedUnsettles(outer: seq<seq<Stmt>>, top: seq<Stmt>, last: TokenType, ts: seq<Token>)
    requires Consistent(outer, top, last) && top != [] && !EndsStatement(last) && BeginsQuoted(ts)
    ensures !Stands(outer, top, Left(outer, top, last, ts))
    decreases |ts|
  {
    if ts[0].Note? {
      QuotedUnsettles(outer, top, last, ts[1..]);
    } else {
      LeftKeeps(outer, ExtendLast(top, ts[0].text), QuotedString, ts[1..]);
      LongerStandsNot(outer, top, ts[0].text, Left(outer, top, last, ts));
    }
  }

  /** If the way to a block stands, the statement that was completed with it does. */
  lemma {:induction false} WayStands(outer: seq<seq<Stmt>>, top: seq<Stmt>, block: seq<Stmt>)
    requires outer != [] && [] !in outer && outer[|outer| - 1] != [] && Stands(outer, [], block)
    requires var n := |outer| - 1; AllKept(outer[..n], WithChild(outer[n], Block(top)), true, block)
    ensures var n := |outer| - 1; Stands(outer[..n], WithChild(outer[n], Block(top)), block)
    decreases |outer|
  {
    var n := |outer| - 1;
    if n == 0 {
      var y := WithChild(outer[0], Block(top));
      assert y == y[..|y| - 1] + [y[|y| - 1]];
      assert block[..|y|] == block[..|y| - 1] + [block[|y| - 1]];
    } else {
      assert outer[0] in outer && outer[..n][1..] == outer[1..][..n - 1];
      WayStands(outer[1..], top, block[|outer[0]| - 1].child.stmts);
    }
  }

  /** If the statement that a closing brace completes does not stand, nothing in its block does. */
  lemma ClosedStandsNot(outer: seq<seq<Stmt>>, top: seq<Stmt>, done: seq<Stmt>, block: seq<Stmt>)
    requires outer != [] && [] !in outer && outer[|outer| - 1] != []
    requires var n := |outer| - 1; var x := WithChild(outer[n], Block(top));
             AllKept(outer[..n], x, true, block) && !Stands(outer[..n], x, block)
    ensures !Stands(outer, done, block)
  {
    if Stands(outer, done, block) {
      LessStands(outer, [], done, block);
      WayStands(outer, top, block);
    }
  }

  lemma CarriedBack(outer: seq<seq<Stmt>>, top: seq<Stmt>, last: TokenType, ts: seq<Token>, below: nat, complete: bool)
    requires Consistent(outer, top, last) && below <= |outer|
    requires ts != [] && !ts[0].Note? && Step(outer, top, last, ts[0]).Go?
    requires var m, closes := Step(outer, top, last, ts[0]), ts[0].Close? && below == |outer|;
             var below1 := if closes then below - 1 else below;
             below1 <= |m.outer| &&
             !Stands(m.outer[..below1], if closes then m.top else [], Left(m.outer, m.top, TypeOf(ts[0]), ts[1..]))
    ensures !Stands(outer[..below], if complete then top else [], Left(outer, top, last, ts))
  {
    var m, done := Step(outer, top, last, ts[0]), if complete then top else [];
    var block := Left(m.outer, m.top, TypeOf(ts[0]), ts[1..]);
    LeftKeeps(m.outer, m.top, TypeOf(ts[0]), ts[1..]);
    if ts[0].Close? && below == |outer| {
      assert m.outer[..below - 1] == m.outer && outer[..below] == outer;
      ClosedStandsNot(outer, top, done, block);
    } else {
      assert m.outer[..below] == outer[..below];
      PartStandsNot(outer[..below], done, block);
    }
  }

  lemma PartStandsNot(outer: seq<seq<Stmt>>, done: seq<Stmt>, block: seq<Stmt>)
    requires [] !in outer && !Stands(outer, [], block)
    ensures !Stands(outer, done, block)
  {
    if Stands(outer, done, block) {
      LessStands(outer, [], done, block);
    }
  }

  lemma {:induction false} CarriedOn(outer: seq<seq<Stmt>>, top: seq<Stmt>, last: TokenType, ts: seq<Token>,
                                     below: nat, complete: bool)
    requires Consistent(outer, top, last) && below <= |outer| && Machine(outer, top, last, ts).Accept?
    requires complete ==> below == |outer| && !EndsStatement(last) && top != []
    requires CarriesOn(below, |outer| - below, complete, ts)
    ensures !Stands(outer[..below], if complete then top else [], Left(outer, top, last, ts))
    decreases |ts|
  {
    if ts[0].Note? {
      CarriedOn(outer, top, last, ts[1..], below, complete);
    } else {
      var t, m := ts[0], Step(outer, top, last, ts[0]);
      if t.Quoted? && complete {
        QuotedUnsettles(outer, top, last, ts);
        assert outer[..below] == outer;
      } else {
        var closes := t.Close? && below == |outer|;
        CarriesStep(outer, top, last, ts, below, complete);
        CarriedOn(m.outer, m.top, TypeOf(t), ts[1..], if closes then below - 1 else below, closes);
        CarriedBack(outer, top, last, ts, below, complete);
      }
    }
  }

  /** From any point of a run on, at any depth: the complete statements of the open blocks are not
      changed any more, but each stands in the tree at the end where the stack has it, if no quoted
      token carries one on; and, if the file is accepted, only then. */
  lemma CompleteStatementsStay(outer: seq<seq<Stmt>>, top: seq<Stmt>, last: TokenType, ts: seq<Token>)
    requires Consistent(outer, top, last)
    ensures var stands := Stands(outer, Completed(top, last), Left(outer, top, last, ts));
            var carries := CarriesOn(|outer|, 0, !EndsStatement(last) && top != [], ts);
            (!carries ==> stands) && (Machine(outer, top, last, ts).Accept? ==> (stands <==> !carries))
  {
    var complete := !EndsStatement(last) && top != [];
    assert outer[..|outer|] == outer;
    if !CarriesOn(|outer|, 0, complete, ts) {
      NothingCarriedOn(outer, top, last, ts, |outer|, complete);
    } else if Machine(outer, top, last, ts).Accept? {
      CarriedOn(outer, top, last, ts, |outer|, complete);
      if Stands(outer, Completed(top, last), Left(outer, top, last, ts)) && !complete {
        LessStands(outer, [], Completed(top, last), Left(outer, top, last, ts));
      }
    }
  }

  // ----- what the caller's configuration held -----

  /** The statements that the configuration held before are all there afterwards, unchanged, exactly
      if the file does not begin with a quoted token. */
  lemma {:induction false} HeldStatementsStay(base: seq<Stmt>, ts: seq<Token>)
    requires base != []
    ensures base <= Left([], base, Start, ts) <==> !BeginsQuoted(ts)
    ensures base[..|base| - 1] <= Left([], base, Start, ts)
    decreases |ts|
  {
    LeftKeeps([], base, Start, ts);
    if BeginsQuoted(ts) {
      QuotedUnsettles([], base, Start, ts);
    } else if ts != [] && ts[0].Note? {
      HeldStatementsStay(base, ts[1..]);
    } else if ts != [] && Step([], base, Start, ts[0]).Go? {
      var m := Step([], base, Start, ts[0]);
      LeftKeeps([], m.top, TypeOf(ts[0]), ts[1..]);
      assert m.top[..|base|] == base;
    }
  }

  // ----- completing what was read -----

  /** `n` closing braces and the end of the file. */
  function Closes(n: nat): seq<Token> { if n == 0 then [End] else [Close] + Closes(n - 1) }

  /** Ends the statement that has begun, if there is one, then closes `n` blocks and the file. */
  function Closing(begun: bool, n: nat): seq<Token> { (if begun then [Semi] else []) + Closes(n) }

  /** What holds of the state of the parser at any time. */
  predicate Reachable(outer: seq<seq<Stmt>>, top: seq<Stmt>, last: TokenType) {
    Consistent(outer, top, last) && (last.Start? ==> outer == []) &&
    (last.StartBlock? ==> outer != [] && top == []) && (BetweenStatements(last) && !last.StartBlock? ==> top != []) &&
    !last.Comment? && !last.Eof? && !last.Error?
  }

  lemma StepReachable(outer: seq<seq<Stmt>>, top: seq<Stmt>, last: TokenType, t: Token)
    requires Reachable(outer, top, last) && Step(outer, top, last, t).Go?
    ensures Reachable(Step(outer, top, last, t).outer, Step(outer, top, last, t).top, TypeOf(t))
    ensures Step(outer, top, last, t).top == [] <==> t.Open?
  {
  }

  lemma {:induction false} ClosesAccepted(outer: seq<seq<Stmt>>, top: seq<Stmt>, last: TokenType)
    requires Consistent(outer, top, last)
    requires last.StatementEnd? || last.EndBlock? || (if outer == [] then last.Start? else last.StartBlock?)
    ensures Machine(outer, top, last, Closes(|outer|)) == Accept(Collapsed(outer, top))
    decreases |outer|
  {
    if outer != [] {
      var n := |outer| - 1;
      assert Closes(n + 1)[1..] == Closes(n);
      ClosesAccepted(outer[..n], WithChild(outer[n], Block(top)), EndBlock);
    }
  }

  /** At any time the file could end well: with the tree that has been built so far. */
  lemma ClosingAccepted(outer: seq<seq<Stmt>>, top: seq<Stmt>, last: TokenType)
    requires Reachable(outer, top, last)
    ensures Machine(outer, top, last, Closing(EndsStatement(last), |outer|)) == Accept(Collapsed(outer, top))
  {
    var rest := Closes(|outer|);
    if EndsStatement(last) {
      assert ([Semi] + rest)[1..] == rest;
      ClosesAccepted(outer, top, StatementEnd);
    } else {
      assert [] + rest == rest;
      ClosesAccepted(outer, top, last);
    }
  }

  predicate Completes(outer: seq<seq<Stmt>>, top: seq<Stmt>, last: TokenType, front: seq<Token>, more: seq<Token>)
    requires Consistent(outer, top, last)
  {
    Machine(outer, top, last, front + more).Accept?
  }

  /** The tokens can be completed to a configuration. */
  ghost predicate Viable(outer: seq<seq<Stmt>>, top: seq<Stmt>, last: TokenType, front: seq<Token>)
    requires Consistent(outer, top, last)
  {
    exists more :: Completes(outer, top, last, front, more)
  }

  /** The state after one more token; a comment changes nothing. */
  predicate Goes(outer: seq<seq<Stmt>>, top: seq<Stmt>, last: TokenType, t: Token,
                 outer1: seq<seq<Stmt>>, top1: seq<Stmt>, last1: TokenType)
    requires Consistent(outer, top, last)
  {
    if t.Note? then outer1 == outer && top1 == top && last1 == last
    else Step(outer, top, last, t) == Go(outer1, top1) && last1 == TypeOf(t)
  }

  lemma TakeToken(outer: seq<seq<Stmt>>, top: seq<Stmt>, last: TokenType, ts: seq<Token>, n: nat, more: seq<Token>,
                  outer1: seq<seq<Stmt>>, top1: seq<Stmt>, last1: TokenType)
    requires Reachable(outer, top, last) && n < |ts| && Goes(outer, top, last, ts[0], outer1, top1, last1)
    ensures Reachable(outer1, top1, last1)
    ensures Machine(outer, top, last, ts[..n + 1] + more) == Machine(outer1, top1, last1, ts[1..][..n] + more)
  {
    if !ts[0].Note? { StepReachable(outer, top, last, ts[0]); }
    TakeOneMore(ts, n + 1, more);
    var rest := ts[1..][..n] + more;
    assert ([ts[0]] + rest)[1..] == rest;
  }

  lemma TakeViable(outer: seq<seq<Stmt>>, top: seq<Stmt>, last: TokenType, ts: seq<Token>, n: nat,
                   outer1: seq<seq<Stmt>>, top1: seq<Stmt>, last1: TokenType)
    requires Reachable(outer, top, last) && n < |ts| && Goes(outer, top, last, ts[0], outer1, top1, last1)
    ensures Reachable(outer1, top1, last1)
    ensures Viable(outer, top, last, ts[..n + 1]) <==> Viable(outer1, top1, last1, ts[1..][..n])
  {
    TakeToken(outer, top, last, ts, n, [], outer1, top1, last1);
    if Viable(outer, top, last, ts[..n + 1]) {
      var more :| Completes(outer, top, last, ts[..n + 1], more);
      TakeToken(outer, top, last, ts, n, more, outer1, top1, last1);
      assert Completes(outer1, top1, last1, ts[1..][..n], more);
    }
    if Viable(outer1, top1, last1, ts[1..][..n]) {
      var more :| Completes(outer1, top1, last1, ts[1..][..n], more);
      TakeToken(outer, top, last, ts, n, more, outer1, top1, last1);
      assert Completes(outer, top, last, ts[..n + 1], more);
    }
  }

  /** Nothing completes tokens of which the first is refused. */
  lemma RefusedIsNotViable(outer: seq<seq<Stmt>>, top: seq<Stmt>, last: TokenType, ts: seq<Token>)
    requires Consistent(outer, top, last) && ts != [] && !ts[0].Note?
    requires Step(outer, top, last, ts[0]).Halt? && !Step(outer, top, last, ts[0]).outcome.Accept?
    ensures !Viable(outer, top, last, ts)
  {
    forall more ensures !Completes(outer, top, last, ts, more) {
      assert (ts + more)[0] == ts[0];
    }
  }

  /** A run that is refused, cut at the token where it is: before it, the tokens can still be
      completed, by closing what is open, and the tree of that is the tree that is left behind;
      with it, they cannot be completed at all. */
  lemma {:induction false} RefusedRun(outer: seq<seq<Stmt>>, top: seq<Stmt>, last: TokenType, ts: seq<Token>)
    returns (n: nat, begun: bool, depth: nat)
    requires Reachable(outer, top, last) && Machine(outer, top, last, ts).Reject?
    ensures n <= |ts| && End !in ts[..n]
    ensures Machine(outer, top, last, ts[..n] + Closing(begun, depth)) == Accept(Left(outer, top, last, ts))
    ensures n < |ts| ==> !Viable(outer, top, last, ts[..n + 1])
    decreases |ts|
  {
    if ts == [] || (!ts[0].Note? && Step(outer, top, last, ts[0]).Halt?) {
      n, begun, depth := 0, EndsStatement(last), |outer|;
      ClosingAccepted(outer, top, last);
      assert ts[..0] + Closing(begun, depth) == Closing(begun, depth);
      if ts != [] {
        RefusedIsNotViable(outer, top, last, ts[..1]);
      }
    } else {
      var outer1, top1, last1 := outer, top, last;
      if !ts[0].Note? {
        var m := Step(outer, top, last, ts[0]);
        outer1, top1, last1 := m.outer, m.top, TypeOf(ts[0]);
        StepReachable(outer, top, last, ts[0]);
      }
      n, begun, depth := RefusedRun(outer1, top1, last1, ts[1..]);
      TakeToken(outer, top, last, ts, n, Closing(begun, depth), outer1, top1, last1);
      if n < |ts[1..]| {
        TakeViable(outer, top, last, ts, n + 1, outer1, top1, last1);
      }
      assert ts[..n + 1] == [ts[0]] + ts[1..][..n];
      n := n + 1;
    }
  }

  /** A file is refused at the first token that no configuration has there. What it leaves behind is
      the tree of a configuration: of the tokens up to there, with the open statement ended and the
      open blocks closed. */
  lemma RefusedLeavesClosed(base: seq<Stmt>, ts: seq<Token>) returns (n: nat, begun: bool, depth: nat)
    requires Machine([], base, Start, ts).Reject?
    ensures n <= |ts| && End !in ts[..n]
    ensures Machine([], base, Start, ts[..n] + Closing(begun, depth)) == Accept(Left([], base, Start, ts))
    ensures n < |ts| ==> !Viable([], base, Start, ts[..n + 1])
  {
    n, begun, depth := RefusedRun([], base, Start, ts);
  }

  // ----- when the behaviour is defined -----

  /** After the tokens `front`, comments aside, a block has just begun; `isEmpty` says whether one has
      before them. */
  predicate AtBlockStart(front: seq<Token>, isEmpty: bool)
    decreases |front|
  {
    if front == [] then isEmpty else AtBlockStart(front[1..], if front[0].Note? then isEmpty else front[0].Open?)
  }

  /** Token `n` is a quoted one at the beginning of an empty block, and the tokens before it begin a
      configuration. */
  ghost predicate QuotedStartsAt(outer: seq<seq<Stmt>>, top: seq<Stmt>, last: TokenType, ts: seq<Token>, n: nat)
    requires Consistent(outer, top, last)
  {
    n < |ts| && ts[n].Quoted? && ts[n].separated && AtBlockStart(ts[..n], top == []) &&
    End !in ts[..n] && Viable(outer, top, last, ts[..n])
  }

  lemma {:induction false} UndefinedRun(outer: seq<seq<Stmt>>, top: seq<Stmt>, last: TokenType, ts: seq<Token>)
    requires Reachable(outer, top, last)
    ensures Machine(outer, top, last, ts).Undefined? <==> exists n: nat :: QuotedStartsAt(outer, top, last, ts, n)
    decreases |ts|
  {
    if ts == [] {
    } else if !ts[0].Note? && Step(outer, top, last, ts[0]).Halt? {
      UndefinedHere(outer, top, last, ts);
    } else {
      var outer1, top1, last1 := outer, top, last;
      if !ts[0].Note? {
        var m := Step(outer, top, last, ts[0]);
        outer1, top1, last1 := m.outer, m.top, TypeOf(ts[0]);
        StepReachable(outer, top, last, ts[0]);
      }
      UndefinedRun(outer1, top1, last1, ts[1..]);
      if Machine(outer, top, last, ts).Undefined? {
        var n: nat :| QuotedStartsAt(outer1, top1, last1, ts[1..], n);
        StartsOneLater(outer, top, last, ts, outer1, top1, last1, n);
      }
      forall n: nat | QuotedStartsAt(outer, top, last, ts, n) ensures Machine(outer, top, last, ts).Undefined? {
        assert n > 0;
        StartsOneLater(outer, top, last, ts, outer1, top1, last1, n - 1);
      }
    }
  }

  lemma StartsHere(outer: seq<seq<Stmt>>, top: seq<Stmt>, last: TokenType, ts: seq<Token>)
    requires Reachable(outer, top, last) && ts != [] && Step(outer, top, last, ts[0]) == Halt(Undefined)
    ensures QuotedStartsAt(outer, top, last, ts, 0)
  {
    ClosingAccepted(outer, top, last);
    var more := Closing(EndsStatement(last), |outer|);
    assert ts[..0] + more == more;
    assert Completes(outer, top, last, ts[..0], more);
  }

  lemma UndefinedHere(outer: seq<seq<Stmt>>, top: seq<Stmt>, last: TokenType, ts: seq<Token>)
    requires Reachable(outer, top, last) && ts != [] && !ts[0].Note? && Step(outer, top, last, ts[0]).Halt?
    ensures Machine(outer, top, last, ts).Undefined? <==> exists n: nat :: QuotedStartsAt(outer, top, last, ts, n)
  {
    if Machine(outer, top, last, ts).Undefined? {
      StartsHere(outer, top, last, ts);
    }
    forall n: nat | QuotedStartsAt(outer, top, last, ts, n) ensures Machine(outer, top, last, ts).Undefined? {
      if n > 0 {
        assert ts[..n][0] == ts[0] && ts[0] in ts[..n];
        RefusedIsNotViable(outer, top, last, ts[..n]);
      }
    }
  }

  /** The condition one token later, after that token has been read. */
  lemma StartsOneLater(outer: seq<seq<Stmt>>, top: seq<Stmt>, last: TokenType, ts: seq<Token>,
                       outer1: seq<seq<Stmt>>, top1: seq<Stmt>, last1: TokenType, n: nat)
    requires Reachable(outer, top, last) && Reachable(outer1, top1, last1)
    requires ts != [] && Goes(outer, top, last, ts[0], outer1, top1, last1)
    ensures QuotedStartsAt(outer, top, last, ts, n + 1) <==> QuotedStartsAt(outer1, top1, last1, ts[1..], n)
  {
    if n < |ts[1..]| {
      if !ts[0].Note? { StepReachable(outer, top, last, ts[0]); }
      TakeViable(outer, top, last, ts, n, outer1, top1, last1);
      assert ts[..n + 1] == [ts[0]] + ts[1..][..n] && ts[..n + 1][1..] == ts[1..][..n];
    }
  }

  /** A quoted token stands at the beginning of an empty block, and the tokens before it begin a
      configuration. */
  ghost predicate QuotedStartsBlock(base: seq<Stmt>, ts: seq<Token>) {
    exists n: nat :: QuotedStartsAt([], base, Start, ts, n)
  }

  /** The source takes `back()` of an empty vector on exactly those files. */
  lemma UndefinedExactlyIfQuotedStartsBlock(base: seq<Stmt>, ts: seq<Token>)
    ensures Machine([], base, Start, ts).Undefined? <==> QuotedStartsBlock(base, ts)
  {
    UndefinedRun([], base, Start, ts);
  }
}
