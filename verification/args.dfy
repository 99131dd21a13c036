/**
 * The argument rewriter of dcj: one left-to-right pass over the command line that
 * recognises dcj's own flags (`--yml-file`, `--env-file`, `--dump`), replaces each
 * occurrence in place by its docker compose equivalent, records the values it found
 * in a `CustomArgs` record and copies every other token through unchanged.
 *
 * The specification views the command line as a sequence of units: a forwarded
 * token, or a custom flag together with the value it consumed. `Parse` cuts the
 * tokens into units the way the cursor loop does, `Forwarded` concatenates what each
 * unit emits, and `Fold` collects the recorded values.
 */
module Args {
  import opened Wrappers
  import opened Text

  const YmlFlag := "--yml-file"
  const EnvFlag := "--env-file"
  const DumpFlag := "--dump"

  /** The values collected while rewriting (`CustomArgs` of dcj.py). */
  datatype CustomArgs = CustomArgs(ymlFile: Option<string>, envFile: Option<string>, dump: bool)

  /** The record as it is created, before any flag has been seen. */
  const NoCustomArgs := CustomArgs(None, None, false)

  /** How the rewriter reads one token. */
  datatype Token =
    | YmlBare              // `--yml-file`, takes the next token as its value
    | YmlJoined(v: string) // `--yml-file=V`
    | EnvBare              // `--env-file`, takes the next token as its value
    | EnvJoined(v: string) // `--env-file=V`
    | Dump                 // `--dump`
    | Plain                // anything else

  function Classify(tok: string): Token {
    if tok == YmlFlag then YmlBare
    else if StartsWith(tok, YmlFlag + "=") then YmlJoined(AfterFirst(tok, '='))
    else if tok == EnvFlag then EnvBare
    else if StartsWith(tok, EnvFlag + "=") then EnvJoined(AfterFirst(tok, '='))
    else if tok == DumpFlag then Dump
    else Plain
  }

  /** One recognised piece of the command line. `joined` tells `--flag=V` from `--flag V`. */
  datatype Unit =
    | Pass(tok: string)
    | YmlFile(value: string, joined: bool)
    | EnvFile(value: string, joined: bool)
    | DumpMode

  /** The input tokens a unit was read from. */
  function Source(u: Unit): seq<string> {
    match u
    case Pass(t) => [t]
    case YmlFile(v, joined) => if joined then [YmlFlag + "=" + v] else [YmlFlag, v]
    case EnvFile(v, joined) => if joined then [EnvFlag + "=" + v] else [EnvFlag, v]
    case DumpMode => [DumpFlag]
  }

  /** The tokens a unit is replaced by in the forwarded command line. */
  function Emit(u: Unit): seq<string> {
    match u
    case Pass(t) => [t]
    case YmlFile(v, _) => ["-f", v]
    case EnvFile(v, _) => [EnvFlag, v]
    case DumpMode => []
  }

  /** What a unit records in the custom record. */
  function Apply(c: CustomArgs, u: Unit): CustomArgs {
    match u
    case Pass(_) => c
    case YmlFile(v, _) => c.(ymlFile := Some(v))
    case EnvFile(v, _) => c.(envFile := Some(v))
    case DumpMode => c.(dump := true)
  }

  function Tokens(us: seq<Unit>): seq<string> {
    if us == [] then [] else Source(us[0]) + Tokens(us[1..])
  }

  function Forwarded(us: seq<Unit>): seq<string> {
    if us == [] then [] else Emit(us[0]) + Forwarded(us[1..])
  }

  function Fold(c: CustomArgs, us: seq<Unit>): CustomArgs
    decreases |us|
  {
    if us == [] then c else Fold(Apply(c, us[0]), us[1..])
  }

  /** Units the rewriter can produce: a forwarded token is never one of dcj's flags. */
  predicate WellFormed(us: seq<Unit>) {
    forall i :: 0 <= i < |us| ==> us[i].Pass? ==> Classify(us[i].tok) == Plain
  }

  /** Outcome of cutting a command line into units: all of it, or the units read
      before a value-taking flag that stands last with no value after it. */
  datatype Parsed = Units(units: seq<Unit>) | MissingValue(flag: string, before: seq<Unit>)

  function PrependAll(us: seq<Unit>, p: Parsed): Parsed {
    match p
    case Units(vs) => Units(us + vs)
    case MissingValue(f, b) => MissingValue(f, us + b)
  }

  /** The units the cursor loop of `ArgRewriter.process` reads, front to back. */
  function Parse(toks: seq<string>): Parsed
    decreases |toks|
  {
    if toks == [] then Units([])
    else
      var rest := toks[1..];
      match Classify(toks[0])
      case YmlBare =>
        if rest == [] then MissingValue(YmlFlag, [])
        else PrependAll([YmlFile(rest[0], false)], Parse(rest[1..]))
      case YmlJoined(v) => PrependAll([YmlFile(v, true)], Parse(rest))
      case EnvBare =>
        if rest == [] then MissingValue(EnvFlag, [])
        else PrependAll([EnvFile(rest[0], false)], Parse(rest[1..]))
      case EnvJoined(v) => PrependAll([EnvFile(v, true)], Parse(rest))
      case Dump => PrependAll([DumpMode], Parse(rest))
      case Plain => PrependAll([Pass(toks[0])], Parse(rest))
  }

  function MissingValueMessage(flag: string): string {
    flag + " requires a value"
  }

  /** The rewritten command line and the collected values. */
  datatype Rewritten = Rewritten(args: seq<string>, custom: CustomArgs)

  /** What a fresh `ArgRewriter(argv).process()` produces, as a value. It fails only
      on a bare `--yml-file` or `--env-file` that is the last token, and the error
      names that flag. */
  function Rewrite(argv: seq<string>): (r: Result<Rewritten>)
    ensures r.Err? ==> && |argv| > 0
                       && (argv[|argv| - 1] == YmlFlag || argv[|argv| - 1] == EnvFlag)
                       && r.error == MissingValueMessage(argv[|argv| - 1])
  {
    ParseCovers(argv);
    match Parse(argv)
    case Units(us) => Ok(Rewritten(Forwarded(us), Fold(NoCustomArgs, us)))
    case MissingValue(flag, _) => Err(MissingValueMessage(flag))
  }

  // ---------------------------------------------------------------------------
  // The rewriter object

  class ArgRewriter {
    const originalArgv: seq<string>
    var custom: CustomArgs
    var rewritten: seq<string>

    constructor (argv: seq<string>)
      ensures originalArgv == argv && custom == NoCustomArgs && rewritten == argv
    {
      originalArgv := argv;
      custom := NoCustomArgs;
      rewritten := argv;
    }

    /** Rewrites `rewritten` in place and returns the collected values. On a bare
        value-taking flag at the end it stops with an error naming the flag; the
        values recorded before that point stay in `custom` and `rewritten` is untouched. */
    method Process() returns (r: Result<CustomArgs>)
      modifies this
      ensures match Parse(old(rewritten))
        case Units(us) =>
          && r == Ok(Fold(old(custom), us)) && custom == r.value
          && rewritten == Forwarded(us)
        case MissingValue(flag, before) =>
          && r == Err(MissingValueMessage(flag))
          && custom == Fold(old(custom), before)
          && rewritten == old(rewritten)
    {
      var toks := rewritten;
      ghost var c0 := custom;
      ghost var done: seq<Unit> := [];
      var i := 0;
      var out: seq<string> := [];
      while i < |toks|
        invariant 0 <= i <= |toks| && rewritten == toks == old(rewritten)
        invariant out == Forwarded(done) && custom == Fold(c0, done)
        invariant Parse(toks) == PrependAll(done, Parse(toks[i..]))
      {
        var tok := toks[i];
        ParseAt(toks, i);
        // The unit read in this step starts at `at`; it emits `Emit(u)` after
        // `outBefore` and applies to `customBefore`.
        ghost var at, customBefore, outBefore := i, custom, out;
        if tok == YmlFlag || StartsWith(tok, YmlFlag + "=") {
          var value;
          if tok == YmlFlag {
            if i + 1 >= |toks| {
              assert done + [] == done;
              assert Parse(toks) == MissingValue(YmlFlag, done);
              return Err(MissingValueMessage(YmlFlag));
            }
            value := toks[i + 1];
            i := i + 2;
          } else {
            value := AfterFirst(tok, '=');
            i := i + 1;
          }
          custom := custom.(ymlFile := Some(value));
          out := out + ["-f", value];
          ghost var u := YmlFile(value, tok != YmlFlag);
          assert Parse(toks[at..]) == PrependAll([u], Parse(toks[i..]));
          Advance(toks, at, i, done, u, c0);
          assert out == outBefore + Emit(u) && custom == Apply(customBefore, u);
          done := done + [u];
          continue;
        }
        if tok == EnvFlag || StartsWith(tok, EnvFlag + "=") {
          var value;
          if tok == EnvFlag {
            if i + 1 >= |toks| {
              assert done + [] == done;
              assert Parse(toks) == MissingValue(EnvFlag, done);
              return Err(MissingValueMessage(EnvFlag));
            }
            value := toks[i + 1];
            i := i + 2;
          } else {
            value := AfterFirst(tok, '=');
            i := i + 1;
          }
          custom := custom.(envFile := Some(value));
          out := out + [EnvFlag, value];
          ghost var u := EnvFile(value, tok != EnvFlag);
          assert Parse(toks[at..]) == PrependAll([u], Parse(toks[i..]));
          Advance(toks, at, i, done, u, c0);
          assert out == outBefore + Emit(u) && custom == Apply(customBefore, u);
          done := done + [u];
          continue;
        }
        if tok == DumpFlag {
          custom := custom.(dump := true);
          i := i + 1;
          ghost var u := DumpMode;
          assert Parse(toks[at..]) == PrependAll([u], Parse(toks[i..]));
          Advance(toks, at, i, done, u, c0);
          assert out == outBefore + Emit(u) && custom == Apply(customBefore, u);
          done := done + [u];
          continue;
        }
        out := out + [tok];
        i := i + 1;
        ghost var u := Pass(tok);
        assert Parse(toks[at..]) == PrependAll([u], Parse(toks[i..]));
        Advance(toks, at, i, done, u, c0);
        assert out == outBefore + Emit(u) && custom == Apply(customBefore, u);
        done := done + [u];
      }
      assert toks[i..] == [] && done + [] == done;
      assert Parse(toks) == Units(done);
      rewritten := out;
      r := Ok(custom);
    }
  }

  /** `ArgRewriter(argv)` followed by `process()`, as `main` uses them: the forwarded
      arguments and the collected values are those of `Rewrite`. */
  method RunRewriter(argv: seq<string>) returns (r: Result<Rewritten>)
    ensures r == Rewrite(argv)
  {
    var rewriter := new ArgRewriter(argv);
    var res := rewriter.Process();
    match res
    case Ok(c) => r := Ok(Rewritten(rewriter.rewritten, c));
    case Err(msg) => r := Err(msg);
  }

  /** The loop invariant of `Process` carried over one unit read between `at` and `next`. */
  lemma Advance(toks: seq<string>, at: nat, next: nat, done: seq<Unit>, u: Unit, c0: CustomArgs)
    requires at <= next <= |toks|
    requires Parse(toks) == PrependAll(done, Parse(toks[at..]))
    requires Parse(toks[at..]) == PrependAll([u], Parse(toks[next..]))
    ensures Parse(toks) == PrependAll(done + [u], Parse(toks[next..]))
    ensures Forwarded(done + [u]) == Forwarded(done) + Emit(u)
    ensures Fold(c0, done + [u]) == Apply(Fold(c0, done), u)
  {
    ForwardedSnoc(done, u);
    FoldSnoc(c0, done, u);
    PrependAllAssoc(done, [u], Parse(toks[next..]));
  }

  /** One step of `Parse` at cursor `i`. */
  lemma ParseAt(toks: seq<string>, i: nat)
    requires i < |toks|
    ensures match Classify(toks[i])
      case YmlBare =>
        Parse(toks[i..]) ==
          if i + 1 == |toks| then MissingValue(YmlFlag, [])
          else PrependAll([YmlFile(toks[i + 1], false)], Parse(toks[i + 2..]))
      case YmlJoined(v) => Parse(toks[i..]) == PrependAll([YmlFile(v, true)], Parse(toks[i + 1..]))
      case EnvBare =>
        Parse(toks[i..]) ==
          if i + 1 == |toks| then MissingValue(EnvFlag, [])
          else PrependAll([EnvFile(toks[i + 1], false)], Parse(toks[i + 2..]))
      case EnvJoined(v) => Parse(toks[i..]) == PrependAll([EnvFile(v, true)], Parse(toks[i + 1..]))
      case Dump => Parse(toks[i..]) == PrependAll([DumpMode], Parse(toks[i + 1..]))
      case Plain => Parse(toks[i..]) == PrependAll([Pass(toks[i])], Parse(toks[i + 1..]))
  {
    var s := toks[i..];
    assert s[0] == toks[i] && s[1..] == toks[i + 1..];
    if i + 1 < |toks| {
      assert s[1..][0] == toks[i + 1] && s[1..][1..] == toks[i + 2..];
    }
  }

  lemma PrependAllAssoc(a: seq<Unit>, b: seq<Unit>, p: Parsed)
    ensures PrependAll(a, PrependAll(b, p)) == PrependAll(a + b, p)
  {
    match p
    case Units(vs) => assert a + (b + vs) == (a + b) + vs;
    case MissingValue(f, bs) => assert a + (b + bs) == (a + b) + bs;
  }

  lemma {:induction false} ForwardedSnoc(us: seq<Unit>, u: Unit)
    ensures Forwarded(us + [u]) == Forwarded(us) + Emit(u)
  {
    if us == [] {
      assert [u][1..] == [];
    } else {
      assert (us + [u])[1..] == us[1..] + [u];
      ForwardedSnoc(us[1..], u);
    }
  }

  lemma {:induction false} FoldSnoc(c: CustomArgs, us: seq<Unit>, u: Unit)
    ensures Fold(c, us + [u]) == Apply(Fold(c, us), u)
    decreases |us|
  {
    if us == [] {
      assert [u][1..] == [];
    } else {
      assert (us + [u])[1..] == us[1..] + [u];
      FoldSnoc(Apply(c, us[0]), us[1..], u);
    }
  }

  // ---------------------------------------------------------------------------
  // Units cover the command line exactly

  /** `p` accounts for every token of `toks`, in order: the units' source tokens
      are `toks`, or, on an error, the units read before a bare value-taking flag
      that is the last token. */
  predicate Covers(toks: seq<string>, p: Parsed) {
    match p
    case Units(us) => WellFormed(us) && Tokens(us) == toks
    case MissingValue(f, b) => WellFormed(b) && Tokens(b) + [f] == toks && (f == YmlFlag || f == EnvFlag)
  }

  lemma TokensCons(u: Unit, us: seq<Unit>)
    ensures Tokens([u] + us) == Source(u) + Tokens(us)
    ensures Forwarded([u] + us) == Emit(u) + Forwarded(us)
    ensures forall c :: Fold(c, [u] + us) == Fold(Apply(c, u), us)
  {
    assert ([u] + us)[0] == u && ([u] + us)[1..] == us;
  }

  lemma CoversCons(u: Unit, rest: seq<string>, p: Parsed)
    requires u.Pass? ==> Classify(u.tok) == Plain
    requires Covers(rest, p)
    ensures Covers(Source(u) + rest, PrependAll([u], p))
  {
    match p
    case Units(us) =>
      TokensCons(u, us);
      assert WellFormed([u] + us) by {
        forall i | 0 <= i < |[u] + us| ensures ([u] + us)[i].Pass? ==> Classify(([u] + us)[i].tok) == Plain {
          if i > 0 { assert ([u] + us)[i] == us[i - 1]; }
        }
      }
    case MissingValue(f, b) =>
      TokensCons(u, b);
      assert WellFormed([u] + b) by {
        forall i | 0 <= i < |[u] + b| ensures ([u] + b)[i].Pass? ==> Classify(([u] + b)[i].tok) == Plain {
          if i > 0 { assert ([u] + b)[i] == b[i - 1]; }
        }
      }
  }

  /** Every outcome of `Parse` accounts for its input: the cursor loop never drops,
      duplicates or reorders a token, and a parse error happens only at a bare
      `--yml-file` or `--env-file` that is the last token. */
  lemma {:induction false} ParseCovers(toks: seq<string>)
    ensures Covers(toks, Parse(toks))
    decreases |toks|, 1
  {
    if toks == [] {
    } else if |toks| == 1 && (toks[0] == YmlFlag || toks[0] == EnvFlag) {
      assert Tokens([]) + [toks[0]] == toks;
    } else {
      var u, rest := SplitFirstUnit(toks);
      ParseCoversStep(u, rest);
    }
  }

  /** The first unit of a command line that does not end in a bare value-taking flag. */
  lemma SplitFirstUnit(toks: seq<string>) returns (u: Unit, rest: seq<string>)
    requires toks != [] && !(|toks| == 1 && (toks[0] == YmlFlag || toks[0] == EnvFlag))
    ensures toks == Source(u) + rest && |rest| < |toks|
    ensures u.Pass? ==> Classify(u.tok) == Plain
  {
    var t := toks[0];
    rest := toks[1..];
    assert toks == [t] + rest;
    match Classify(t)
    case YmlBare =>
      assert t == YmlFlag && rest != [];
      assert toks == [t, rest[0]] + rest[1..];
      u, rest := YmlFile(rest[0], false), rest[1..];
    case YmlJoined(v) =>
      JoinedSplits(t, YmlFlag);
      u := YmlFile(v, true);
    case EnvBare =>
      assert t == EnvFlag && rest != [];
      assert toks == [t, rest[0]] + rest[1..];
      u, rest := EnvFile(rest[0], false), rest[1..];
    case EnvJoined(v) =>
      JoinedSplits(t, EnvFlag);
      u := EnvFile(v, true);
    case Dump =>
      u := DumpMode;
    case Plain =>
      u := Pass(t);
  }

  lemma {:induction false} ParseCoversStep(u: Unit, rest: seq<string>)
    requires u.Pass? ==> Classify(u.tok) == Plain
    ensures Covers(Source(u) + rest, Parse(Source(u) + rest))
    decreases |Source(u)| + |rest|, 0
  {
    ParseCovers(rest);
    ParseSource(u, rest);
    CoversCons(u, rest, Parse(rest));
  }

  /** Reading the source tokens of one unit, followed by anything, yields that unit first. */
  lemma ParseSource(u: Unit, rest: seq<string>)
    requires u.Pass? ==> Classify(u.tok) == Plain
    ensures Parse(Source(u) + rest) == PrependAll([u], Parse(rest))
  {
    var toks := Source(u) + rest;
    match u
    case Pass(t) =>
      assert toks[0] == t && toks[1..] == rest;
    case YmlFile(v, joined) =>
      if joined {
        AfterFirstJoined(YmlFlag, v);
        assert toks[0] == YmlFlag + "=" + v && toks[1..] == rest;
        assert toks[0][..11] == YmlFlag + "=";
      } else {
        assert toks[0] == YmlFlag && toks[1..][0] == v && toks[1..][1..] == rest;
      }
    case EnvFile(v, joined) =>
      if joined {
        AfterFirstJoined(EnvFlag, v);
        assert toks[0] == EnvFlag + "=" + v && toks[1..] == rest;
        assert toks[0][2] == 'e';
        assert toks[0][..11] == EnvFlag + "=";
      } else {
        assert toks[0] == EnvFlag && toks[1..][0] == v && toks[1..][1..] == rest;
      }
    case DumpMode =>
      assert toks[0] == DumpFlag && toks[1..] == rest;
  }

  /** Units read back from their own tokens come out the same, whatever follows them. */
  lemma {:induction false} ParseAfterUnits(us: seq<Unit>, tail: seq<string>)
    requires WellFormed(us)
    ensures Parse(Tokens(us) + tail) == PrependAll(us, Parse(tail))
    decreases |us|
  {
    if us == [] {
      assert Tokens(us) + tail == tail;
      match Parse(tail)
      case Units(vs) => assert [] + vs == vs;
      case MissingValue(f, b) => assert [] + b == b;
    } else {
      var u := us[0];
      assert us == [u] + us[1..];
      assert WellFormed(us[1..]) by {
        forall i | 0 <= i < |us[1..]| ensures us[1..][i].Pass? ==> Classify(us[1..][i].tok) == Plain {
          assert us[1..][i] == us[i + 1];
        }
      }
      TokensCons(u, us[1..]);
      assert Tokens(us) + tail == Source(u) + (Tokens(us[1..]) + tail);
      ParseSource(u, Tokens(us[1..]) + tail);
      ParseAfterUnits(us[1..], tail);
      PrependAllAssoc([u], us[1..], Parse(tail));
    }
  }

  /** Round trip: the tokens of well-formed units parse back into those units. */
  lemma ParseTokens(us: seq<Unit>)
    requires WellFormed(us)
    ensures Parse(Tokens(us)) == Units(us)
  {
    ParseAfterUnits(us, []);
    assert Tokens(us) + [] == Tokens(us) && us + [] == us;
  }

  /** A bare `--yml-file` or `--env-file` after any complete command line is an
      error naming that flag. */
  lemma MissingValueAtEnd(us: seq<Unit>, flag: string)
    requires WellFormed(us) && (flag == YmlFlag || flag == EnvFlag)
    ensures Parse(Tokens(us) + [flag]) == MissingValue(flag, us)
    ensures Rewrite(Tokens(us) + [flag]) == Err(flag + " requires a value")
  {
    ParseAfterUnits(us, [flag]);
    assert [flag][1..] == [];
    assert us + [] == us;
  }

  // ---------------------------------------------------------------------------
  // What the rewriter forwards and records

  /** A command line without dcj flags is forwarded token for token, and nothing is recorded. */
  lemma {:induction false} PlainTokensForwarded(toks: seq<string>)
    requires forall i :: 0 <= i < |toks| ==> Classify(toks[i]) == Plain
    ensures Parse(toks).Units? && Forwarded(Parse(toks).units) == toks
    ensures forall c :: Fold(c, Parse(toks).units) == c
    decreases |toks|
  {
    if toks != [] {
      var rest := toks[1..];
      PlainTokensForwarded(rest);
      TokensCons(Pass(toks[0]), Parse(rest).units);
      assert toks == [toks[0]] + rest;
    }
  }

  /** Identity: without dcj flags the rewritten list equals the input. */
  lemma IdentityWithoutCustomFlags(argv: seq<string>)
    requires forall i :: 0 <= i < |argv| ==> Classify(argv[i]) == Plain
    ensures Rewrite(argv) == Ok(Rewritten(argv, NoCustomArgs))
  {
    PlainTokensForwarded(argv);
  }

  /** `--flag V` and `--flag=V` rewrite identically, for `--yml-file` and `--env-file`. */
  lemma BothFormsAgree(flag: string, v: string, rest: seq<string>)
    requires flag == YmlFlag || flag == EnvFlag
    ensures Rewrite([flag, v] + rest) == Rewrite([flag + "=" + v] + rest)
  {
    var spaced := if flag == YmlFlag then YmlFile(v, false) else EnvFile(v, false);
    var joined := if flag == YmlFlag then YmlFile(v, true) else EnvFile(v, true);
    assert Source(spaced) == [flag, v] && Source(joined) == [flag + "=" + v];
    ParseSource(spaced, rest);
    ParseSource(joined, rest);
    match Parse(rest)
    case Units(us) =>
      TokensCons(spaced, us);
      TokensCons(joined, us);
    case MissingValue(_, _) =>
  }

  /** `s` holds `a` immediately followed by `b`. */
  predicate HasPair(s: seq<string>, a: string, b: string) {
    exists i :: 0 <= i < |s| - 1 && s[i] == a && s[i + 1] == b
  }

  lemma HasPairShift(p: seq<string>, s: seq<string>, a: string, b: string)
    requires HasPair(s, a, b)
    ensures HasPair(p + s, a, b)
  {
    var i :| 0 <= i < |s| - 1 && s[i] == a && s[i + 1] == b;
    assert (p + s)[|p| + i] == a && (p + s)[|p| + i + 1] == b;
  }

  /** Every recorded value leaves its replacement in the forwarded list: a recorded
      `--yml-file` value stands right after a `-f`, a recorded `--env-file` value right
      after `--env-file`, and dump is set exactly when a `--dump` unit was read. */
  lemma {:induction false} FlagsLeaveTrace(c: CustomArgs, us: seq<Unit>)
    ensures var c' := Fold(c, us);
      && (c'.ymlFile == c.ymlFile || (c'.ymlFile.Some? && HasPair(Forwarded(us), "-f", c'.ymlFile.value)))
      && (c'.envFile == c.envFile || (c'.envFile.Some? && HasPair(Forwarded(us), EnvFlag, c'.envFile.value)))
      && (c'.dump <==> c.dump || DumpMode in us)
    decreases |us|
  {
    if us != [] {
      var u, rest := us[0], us[1..];
      var c1 := Apply(c, u);
      assert us == [u] + rest;
      TokensCons(u, rest);
      FlagsLeaveTrace(c1, rest);
      var c' := Fold(c1, rest);
      if c'.ymlFile != c1.ymlFile {
        HasPairShift(Emit(u), Forwarded(rest), "-f", c'.ymlFile.value);
      } else if u.YmlFile? {
        assert Forwarded(us)[0] == "-f" && Forwarded(us)[1] == u.value;
      }
      if c'.envFile != c1.envFile {
        HasPairShift(Emit(u), Forwarded(rest), EnvFlag, c'.envFile.value);
      } else if u.EnvFile? {
        assert Forwarded(us)[0] == EnvFlag && Forwarded(us)[1] == u.value;
      }
      assert DumpMode in us <==> u == DumpMode || DumpMode in rest;
    }
  }

  /** A rewrite that records a `--yml-file` value has `-f <value>` in its output. */
  lemma YmlFileImpliesDashF(argv: seq<string>)
    requires Rewrite(argv).Ok? && Rewrite(argv).value.custom.ymlFile.Some?
    ensures var rw := Rewrite(argv).value; HasPair(rw.args, "-f", rw.custom.ymlFile.value) && "-f" in rw.args
  {
    var us := Parse(argv).units;
    FlagsLeaveTrace(NoCustomArgs, us);
  }

  lemma {:induction false} FoldConcat(c: CustomArgs, a: seq<Unit>, b: seq<Unit>)
    ensures Fold(c, a + b) == Fold(Fold(c, a), b)
    decreases |a|
  {
    if a == [] {
      assert a + b == b;
    } else {
      assert (a + b)[0] == a[0] && (a + b)[1..] == a[1..] + b;
      FoldConcat(Apply(c, a[0]), a[1..], b);
    }
  }

  lemma {:induction false} FoldKeeps(c: CustomArgs, b: seq<Unit>)
    ensures (forall i :: 0 <= i < |b| ==> !b[i].YmlFile?) ==> Fold(c, b).ymlFile == c.ymlFile
    ensures (forall i :: 0 <= i < |b| ==> !b[i].EnvFile?) ==> Fold(c, b).envFile == c.envFile
    decreases |b|
  {
    if b != [] {
      FoldKeeps(Apply(c, b[0]), b[1..]);
      assert forall i :: 0 <= i < |b[1..]| ==> b[1..][i] == b[i + 1];
    }
  }

  /** The last occurrence wins: after a `--yml-file` (or `--env-file`) unit that no
      later unit of the same flag follows, the record holds that unit's value. */
  lemma LastOccurrenceWins(c: CustomArgs, a: seq<Unit>, u: Unit, b: seq<Unit>)
    ensures u.YmlFile? && (forall i :: 0 <= i < |b| ==> !b[i].YmlFile?) ==> Fold(c, a + [u] + b).ymlFile == Some(u.value)
    ensures u.EnvFile? && (forall i :: 0 <= i < |b| ==> !b[i].EnvFile?) ==> Fold(c, a + [u] + b).envFile == Some(u.value)
  {
    FoldConcat(c, a + [u], b);
    FoldConcat(c, a, [u]);
    TokensCons(u, []);
    FoldKeeps(Fold(c, a + [u]), b);
  }

  // ---------------------------------------------------------------------------
  // The older single-flag lookup

  /** Result of `parse_equals_or_next`: the value found, if any, and the indices it used. */
  datatype Lookup = Lookup(value: Option<string>, consumed: seq<nat>)

  /** `tok` is `flag` itself or starts with `flag=`. */
  predicate Names(tok: string, flag: string) {
    tok == flag || StartsWith(tok, flag + "=")
  }

  predicate FirstNamedAt(argv: seq<string>, flag: string, i: int) {
    0 <= i < |argv| && Names(argv[i], flag) && forall j :: 0 <= j < i ==> !Names(argv[j], flag)
  }

  /** Finds the FIRST token naming `flag` and returns its value (the next token, or
      what follows the first `=`) with the indices it occupies; a bare `flag` as the
      last token is an error. */
  method ParseEqualsOrNext(argv: seq<string>, flag: string) returns (r: Result<Lookup>)
    ensures (r.Ok? && r.value.value.None?) <==> forall i :: 0 <= i < |argv| ==> !Names(argv[i], flag)
    ensures r.Ok? && r.value.value.None? ==> r.value.consumed == []
    ensures r.Ok? && r.value.value.Some? ==>
      exists i :: FirstNamedAt(argv, flag, i) &&
        if argv[i] == flag then i + 1 < |argv| && r.value == Lookup(Some(argv[i + 1]), [i, i + 1])
        else r.value == Lookup(Some(AfterFirst(argv[i], '=')), [i])
    ensures r.Err? ==>
      && FirstNamedAt(argv, flag, |argv| - 1) && argv[|argv| - 1] == flag
      && r.error == "Expected a value after " + flag
  {
    var i := 0;
    while i < |argv|
      invariant 0 <= i <= |argv|
      invariant forall j :: 0 <= j < i ==> !Names(argv[j], flag)
    {
      var tok := argv[i];
      if tok == flag {
        if i + 1 < |argv| {
          return Ok(Lookup(Some(argv[i + 1]), [i, i + 1]));
        } else {
          return Err("Expected a value after " + flag);
        }
      }
      if StartsWith(tok, flag + "=") {
        return Ok(Lookup(Some(AfterFirst(tok, '=')), [i]));
      }
      i := i + 1;
    }
    return Ok(Lookup(None, []));
  }
}
