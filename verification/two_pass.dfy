/**
 * Why the two passes of the assembler agree: both follow one layout of the
 * statements, computed from the tokens alone, so the labels the first pass
 * records are the counters the second pass has where they are defined.
 */
module TwoPass {
  import opened Common
  import opened CType
  import opened Instructions
  import opened Environment
  import opened Tokenizer
  import opened Parser

  // ---------------------------------------------------------------------
  // The passes agree
  // ---------------------------------------------------------------------

  /** An operand the second pass reads, the first pass reads too: it takes every label as 0. */
  lemma ReadOperandsPasses(e1: Env, e2: Env, tokens: seq<Token>, j: nat, cfg: Config, m: Mnemonic)
    requires e1.firstPass
    requires forall i :: 0 <= i < |tokens| ==> NoNul(tokens[i].text)
    requires ReadOperands(e2, tokens, j, cfg, m).Some?
    ensures ReadOperands(e1, tokens, j, cfg, m).Some?
  {
  }

  /** A statement the second pass accepts, the first pass accepts at the same place. */
  lemma AcceptsPasses(s1: ParserState, s2: ParserState, cfg: Config)
    requires ValidState(s1) && ValidState(s2) && s1.env.firstPass
    requires s1.tokens == s2.tokens && s1.index == s2.index
    requires Accepts(s2, cfg)
    ensures Accepts(s1, cfg)
  {
    var j := s1.index;
    if KindAt(s1.tokens, j, Instruction) {
      match Dispatch(s1.tokens[j].text)
      case None =>
      case Some(m) => ReadOperandsPasses(s1.env, s2.env, s1.tokens, j + 1, cfg, m);
    }
  }

  /** A pass that gets past a statement carries on from the state that statement leaves. */
  lemma RunPassContinues(st: ParserState, cfg: Config, st2: ParserState)
    requires ValidState(st) && st.index < |st.tokens| && ParseStatement(st, cfg) == Ok((false, st2))
    ensures ValidState(st2) && RunPass(st, cfg) == RunPass(st2, cfg)
  {
    hide ParseStatement;
    StatementFacts(st, cfg, st2);
  }

  /** A pass stops without error at the end of the stream and at an accepted EOF token. */
  lemma RunPassStops(st: ParserState, cfg: Config)
    requires ValidState(st)
    requires st.index >= |st.tokens| || (ParseStatement(st, cfg).Ok? && ParseStatement(st, cfg).value.0)
    ensures RunPass(st, cfg).Ok?
  {
    hide ParseStatement;
  }

  /** A pass that gets through the program accepts the statement it starts at. */
  lemma RunPassAccepts(st: ParserState, cfg: Config)
    requires ValidState(st) && st.index < |st.tokens| && RunPass(st, cfg).Ok?
    ensures Accepts(st, cfg)
  {
    hide ParseStatement;
  }

  /**
   * Whenever the second pass gets through the program, so does a first pass
   * from the same token and counter, and both stop at the same token with
   * the same counter.
   */
  lemma {:induction false} PassesAgree(s1: ParserState, s2: ParserState, cfg: Config)
    requires ValidState(s1) && ValidState(s2) && s1.env.firstPass && !s2.env.firstPass
    requires s1.tokens == s2.tokens && s1.index == s2.index && s1.env.pc == s2.env.pc
    requires RunPass(s2, cfg).Ok?
    ensures RunPass(s1, cfg).Ok?
    ensures RunPass(s1, cfg).value.index == RunPass(s2, cfg).value.index
    ensures RunPass(s1, cfg).value.env.pc == RunPass(s2, cfg).value.env.pc
    decreases |s1.tokens| - s1.index
  {
    hide *;
    if s1.index < |s1.tokens| {
      RunPassAccepts(s2, cfg);
      AcceptsPasses(s1, s2, cfg);
      var (done1, t1) := ParseStatement(s1, cfg).value;
      var (done2, t2) := ParseStatement(s2, cfg).value;
      if !done1 {
        StatementFacts(s1, cfg, t1);
        StatementFacts(s2, cfg, t2);
        RunPassContinues(s1, cfg, t1);
        RunPassContinues(s2, cfg, t2);
        PassesAgree(t1, t2, cfg);
      } else {
        RunPassStops(s1, cfg);
      }
    } else {
      RunPassStops(s1, cfg);
    }
  }

  // ---------------------------------------------------------------------
  // Labels resolve to their definitions
  // ---------------------------------------------------------------------

  /**
   * When assembly starts at `STARTER_MEMORY_ADDRESS`, every label the
   * program defines is bound, in the table the second pass resolves against,
   * to the counter the second pass has at its last definition.
   */
  lemma ParseResolvesLabels(tokens: seq<Token>, env: Env, cfg: Config, n: string)
    requires Valid(env) && forall i :: 0 <= i < |tokens| ==> NoNul(tokens[i].text)
    requires env.pc == StarterMemoryAddress && Parse(tokens, env, cfg).Ok?
    ensures var p1 := RunPass(FirstPassStart(tokens, env), cfg).value;
      var d := PassDefinition(Rewound(p1), cfg, n);
      d.Some? ==> Lookup(Parse(tokens, env, cfg).value.labels, n) == d
  {
    var p1 := RunPass(FirstPassStart(tokens, env), cfg).value;
    var p2 := RunPass(Rewound(p1), cfg);
  }
}
