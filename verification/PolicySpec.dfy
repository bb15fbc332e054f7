/**
  What the signer's policy means: a transaction is a list of resolved instructions, and the
  verdict is defined declaratively, with the reason given by the first offence.
 */
module PolicySpec {
  import opened Options

  type Key = string

  const SPL_TRANSFER := 3
  const SPL_APPROVE := 4
  const SPL_SET_AUTHORITY := 6
  const SPL_TRANSFER_CHECKED := 12

  const TOKEN_PROGRAM: Key := "TokenkegQfeZyiNwAJbNbGKPFXCWuBvf9Ss623VQ5DA"
  const TOKEN_2022: Key := "TokenzQdBNbLqP5VEhdkAS6EPFLC1PHnBqCXEpPxuEb"
  const SYSTEM_PROGRAM: Key := "11111111111111111111111111111111"
  const JUPITER_PROGRAM: Key := "JUP6LkbZbjS1jKKwapdHNy74zcZ3tLUZoi5QNyVTaV4"

  datatype Reason =
    | AltResolutionFailed
    | UnknownProgram(program: Key)
    | SetAuthorityBlocked
    | StandaloneTransfer(dest: Key)
    | UnknownInvoked(program: Key)

  datatype Verdict = Allowed | Rejected(reason: Reason)

  /** The signer's configuration and the chain: account owners (None if missing or unreadable),
      associated-token-account derivation (None if the owner is no public key), and the logs of the
      simulation (None if it failed or had none). */
  datatype Env = Env(
    programAllowlist: set<Key>,
    destinationWhitelist: set<Key>,
    dexPrograms: set<Key>,
    ownerOf: Key -> Option<Key>,
    ataOf: (Key, Key, Key) -> Option<Key>,
    logs: Option<seq<string>>)

  /** An instruction with its keys resolved; None where an index is out of range. */
  datatype Ix = Ix(program: Option<Key>, accounts: seq<Option<Key>>, data: seq<int>)

  function Account(ix: Ix, i: nat): Option<Key> {
    if i < |ix.accounts| then ix.accounts[i] else None
  }

  predicate IsToken(ix: Ix) {
    ix.program == Some(TOKEN_PROGRAM) || ix.program == Some(TOKEN_2022)
  }

  predicate HasDisc(ix: Ix, d: int) {
    |ix.data| > 0 && ix.data[0] == d
  }

  /** Where a transfer goes: [source, destination, ..] or [source, mint, destination, ..]. */
  function Dest(ix: Ix): Option<Key> {
    if HasDisc(ix, SPL_TRANSFER) then Account(ix, 1)
    else if HasDisc(ix, SPL_TRANSFER_CHECKED) then Account(ix, 2)
    else None
  }

  function Mint(ix: Ix): Option<Key> {
    if HasDisc(ix, SPL_TRANSFER_CHECKED) then Account(ix, 1) else None
  }

  predicate Invokes(ixs: seq<Ix>, programs: set<Key>) {
    exists i :: 0 <= i < |ixs| && ixs[i].program.Some? && ixs[i].program.value in programs
  }

  ghost predicate IsWhitelistedAta(env: Env, dest: Key, mint: Key, program: Key) {
    exists owner :: owner in env.destinationWhitelist && env.ataOf(owner, program, mint) == Some(dest)
  }

  /** A destination is whitelisted, an account of a whitelisted owner, part of a DEX flow, or owned
      by an allowlisted program. */
  ghost predicate Justified(env: Env, dest: Key, mint: Option<Key>, program: Key, hasDex: bool) {
    || dest in env.destinationWhitelist
    || (mint.Some? && IsWhitelistedAta(env, dest, mint.value, program))
    || hasDex
    || (env.ownerOf(dest).Some? && env.ownerOf(dest).value != SYSTEM_PROGRAM
        && env.ownerOf(dest).value in env.programAllowlist)
  }

  predicate Known(env: Env, ix: Ix) {
    ix.program.Some? ==> ix.program.value in env.programAllowlist
  }

  ghost function Objection(env: Env, ix: Ix, hasDex: bool): Option<Reason> {
    if !IsToken(ix) then None
    else if Dest(ix).Some? && !Justified(env, Dest(ix).value, Mint(ix), ix.program.value, hasDex)
    then Some(StandaloneTransfer(Dest(ix).value))
    else if HasDisc(ix, SPL_SET_AUTHORITY) then Some(SetAuthorityBlocked)
    else None
  }

  /** No check ever objects to an Approve, whomever it empowers. */
  lemma ApproveIsNeverRejected(env: Env, ix: Ix, hasDex: bool)
    requires HasDisc(ix, SPL_APPROVE)
    ensures Objection(env, ix, hasDex).None?
  {
  }

  // ---------- simulation logs ----------

  predicate IsWordChar(c: char) {
    'a' <= c <= 'z' || 'A' <= c <= 'Z' || '0' <= c <= '9' || c == '_'
  }

  /** Length of the run of word characters at the front. */
  function WordLength(s: string): (n: nat)
    ensures n <= |s|
  {
    if s == "" || !IsWordChar(s[0]) then 0 else 1 + WordLength(s[1..])
  }

  /** /Program (\w{32,44}) invoke/ anchored at the front. */
  function MatchHere(s: string): Option<Key> {
    if "Program " <= s then
      var rest := s[8..];
      var n := WordLength(rest);
      if 32 <= n <= 44 && " invoke" <= rest[n..] then Some(rest[..n]) else None
    else None
  }

  /** The leftmost match. */
  function InvokedProgram(line: string): Option<Key> {
    if MatchHere(line).Some? then MatchHere(line)
    else if line == "" then None
    else InvokedProgram(line[1..])
  }

  predicate LineKnown(env: Env, line: string) {
    InvokedProgram(line).Some? ==> InvokedProgram(line).value in env.programAllowlist
  }

  // ---------- the verdict ----------

  ghost predicate ProgramsKnown(env: Env, ixs: seq<Ix>) {
    forall i :: 0 <= i < |ixs| ==> Known(env, ixs[i])
  }

  ghost predicate NoObjection(env: Env, ixs: seq<Ix>, hasDex: bool) {
    forall i :: 0 <= i < |ixs| ==> Objection(env, ixs[i], hasDex).None?
  }

  /** The transaction as a whole trades on a DEX. */
  predicate HasDex(env: Env, ixs: seq<Ix>) {
    Invokes(ixs, env.dexPrograms)
  }

  /** Jupiter routes through programs nobody can list, and missing logs prove nothing. */
  predicate SkipsSimulation(env: Env, ixs: seq<Ix>) {
    Invokes(ixs, {JUPITER_PROGRAM}) || env.logs.None?
  }

  ghost predicate SimulationKnown(env: Env, ixs: seq<Ix>) {
    SkipsSimulation(env, ixs) || forall i :: 0 <= i < |env.logs.value| ==> LineKnown(env, env.logs.value[i])
  }

  /** The transactions the policy means to let through. */
  ghost predicate Acceptable(env: Env, ixs: seq<Ix>) {
    ProgramsKnown(env, ixs) && NoObjection(env, ixs, HasDex(env, ixs)) && SimulationKnown(env, ixs)
  }

  ghost predicate FirstUnknownProgram(env: Env, ixs: seq<Ix>, k: Key) {
    exists i :: 0 <= i < |ixs| && ixs[i].program == Some(k) && k !in env.programAllowlist
      && forall j :: 0 <= j < i ==> Known(env, ixs[j])
  }

  ghost predicate FirstObjection(env: Env, ixs: seq<Ix>, hasDex: bool, reason: Reason) {
    exists i :: 0 <= i < |ixs| && Objection(env, ixs[i], hasDex) == Some(reason)
      && forall j :: 0 <= j < i ==> Objection(env, ixs[j], hasDex).None?
  }

  ghost predicate FirstUnknownInvoked(env: Env, k: Key) {
    env.logs.Some? &&
    exists i :: 0 <= i < |env.logs.value| && InvokedProgram(env.logs.value[i]) == Some(k) && k !in env.programAllowlist
      && forall j :: 0 <= j < i ==> LineKnown(env, env.logs.value[j])
  }

  /** `v` is the verdict on the resolved instructions, with the reason of the first offence. */
  ghost predicate Decides(env: Env, ixs: seq<Ix>, v: Verdict) {
    match v
    case Allowed => Acceptable(env, ixs)
    case Rejected(UnknownProgram(k)) => FirstUnknownProgram(env, ixs, k)
    case Rejected(SetAuthorityBlocked) => ProgramsKnown(env, ixs) && FirstObjection(env, ixs, HasDex(env, ixs), v.reason)
    case Rejected(StandaloneTransfer(_)) => ProgramsKnown(env, ixs) && FirstObjection(env, ixs, HasDex(env, ixs), v.reason)
    case Rejected(UnknownInvoked(k)) =>
      ProgramsKnown(env, ixs) && NoObjection(env, ixs, HasDex(env, ixs)) && !SkipsSimulation(env, ixs) && FirstUnknownInvoked(env, k)
    case Rejected(AltResolutionFailed) => false
  }

  // ---------- properties of the verdict ----------

  lemma UnknownProgramIsUnique(env: Env, ixs: seq<Ix>)
    ensures forall k :: FirstUnknownProgram(env, ixs, k) ==> !ProgramsKnown(env, ixs)
    ensures forall k, l :: FirstUnknownProgram(env, ixs, k) && FirstUnknownProgram(env, ixs, l) ==> k == l
  {
    assert forall i, k :: 0 <= i < |ixs| && ixs[i].program == Some(k) && k !in env.programAllowlist ==> !Known(env, ixs[i]);
  }

  lemma ObjectionIsUnique(env: Env, ixs: seq<Ix>, hasDex: bool)
    ensures forall a :: FirstObjection(env, ixs, hasDex, a) ==> !NoObjection(env, ixs, hasDex)
    ensures forall a, b :: FirstObjection(env, ixs, hasDex, a) && FirstObjection(env, ixs, hasDex, b) ==> a == b
  {
  }

  lemma InvokedIsUnique(env: Env)
    ensures forall k :: FirstUnknownInvoked(env, k) ==>
      exists i :: 0 <= i < |env.logs.value| && !LineKnown(env, env.logs.value[i])
    ensures forall k, l :: FirstUnknownInvoked(env, k) && FirstUnknownInvoked(env, l) ==> k == l
  {
    if env.logs.Some? {
      var logs := env.logs.value;
      assert forall i, k :: 0 <= i < |logs| && InvokedProgram(logs[i]) == Some(k) && k !in env.programAllowlist ==>
        !LineKnown(env, logs[i]);
    }
  }

  /** A transaction has at most one verdict, reason included. */
  lemma VerdictIsUnique(env: Env, ixs: seq<Ix>, v: Verdict, w: Verdict)
    requires Decides(env, ixs, v) && Decides(env, ixs, w)
    ensures v == w
  {
    UnknownProgramIsUnique(env, ixs);
    ObjectionIsUnique(env, ixs, HasDex(env, ixs));
    InvokedIsUnique(env);
  }

  /** The verdict is Allowed exactly on the acceptable transactions. */
  lemma AllowedExactly(env: Env, ixs: seq<Ix>, v: Verdict)
    requires Decides(env, ixs, v)
    ensures v == Allowed <==> Acceptable(env, ixs)
  {
    if Acceptable(env, ixs) { VerdictIsUnique(env, ixs, v, Allowed); }
  }

  /** A larger allowlist or destination whitelist never turns an accepted transaction away. */
  lemma AcceptanceIsMonotone(env: Env, wider: Env, ixs: seq<Ix>)
    requires env.programAllowlist <= wider.programAllowlist
    requires env.destinationWhitelist <= wider.destinationWhitelist
    requires wider == env.(programAllowlist := wider.programAllowlist, destinationWhitelist := wider.destinationWhitelist)
    requires Acceptable(env, ixs)
    ensures Acceptable(wider, ixs)
  {
    var hasDex := HasDex(env, ixs);
    forall i | 0 <= i < |ixs| ensures Objection(wider, ixs[i], hasDex).None? {
      assert Objection(env, ixs[i], hasDex).None?;
    }
    forall i | 0 <= i < |ixs| ensures Known(wider, ixs[i]) { assert Known(env, ixs[i]); }
    if !SkipsSimulation(env, ixs) {
      forall i | 0 <= i < |env.logs.value| ensures LineKnown(wider, wider.logs.value[i]) {
        assert LineKnown(env, env.logs.value[i]);
      }
    }
  }

  // ---------- the verdict in terms of the instructions' own bytes and accounts ----------

  /** Transfer (3) names its destination second, TransferChecked (12) third. */
  ghost predicate TransfersTo(ix: Ix, d: Key) {
    && |ix.data| > 0
    && ((ix.data[0] == 3 && |ix.accounts| > 1 && ix.accounts[1] == Some(d))
        || (ix.data[0] == 12 && |ix.accounts| > 2 && ix.accounts[2] == Some(d)))
  }

  /** `d` is whitelisted, the associated account of a whitelisted owner for the mint that a
      TransferChecked names second, part of a DEX flow, or owned by an allowlisted program other than
      the system one. */
  ghost predicate MayReceive(env: Env, ixs: seq<Ix>, ix: Ix, d: Key)
    requires ix.program.Some? && |ix.data| > 0
  {
    || d in env.destinationWhitelist
    || (ix.data[0] == 12 && |ix.accounts| > 1 && ix.accounts[1].Some?
        && exists owner :: owner in env.destinationWhitelist
             && env.ataOf(owner, ix.program.value, ix.accounts[1].value) == Some(d))
    || (exists i :: 0 <= i < |ixs| && ixs[i].program.Some? && ixs[i].program.value in env.dexPrograms)
    || (env.ownerOf(d).Some? && env.ownerOf(d).value != SYSTEM_PROGRAM && env.ownerOf(d).value in env.programAllowlist)
  }

  ghost predicate OnTokenProgram(ix: Ix) {
    ix.program.Some? && ix.program.value in {TOKEN_PROGRAM, TOKEN_2022}
  }

  /** Every transfer of the token programs goes where it may. */
  ghost predicate TransfersJustified(env: Env, ixs: seq<Ix>) {
    forall i, d :: 0 <= i < |ixs| && OnTokenProgram(ixs[i]) && TransfersTo(ixs[i], d) ==> MayReceive(env, ixs, ixs[i], d)
  }

  /** No SetAuthority (6) of the token programs. */
  ghost predicate NoSetAuthority(ixs: seq<Ix>) {
    forall i :: 0 <= i < |ixs| && OnTokenProgram(ixs[i]) && |ixs[i].data| > 0 ==> ixs[i].data[0] != 6
  }

  /** Which account of which instruction is judged, and what for: the objection to an instruction, in
      both directions. Nothing else is ever objected to. */
  lemma ObjectionExactly(env: Env, ixs: seq<Ix>, ix: Ix)
    ensures var o := Objection(env, ix, HasDex(env, ixs));
      && (forall d :: o == Some(StandaloneTransfer(d)) <==>
            OnTokenProgram(ix) && TransfersTo(ix, d) && !MayReceive(env, ixs, ix, d))
      && (o == Some(SetAuthorityBlocked) <==> OnTokenProgram(ix) && |ix.data| > 0 && ix.data[0] == 6)
      && (o.Some? ==> o.value.StandaloneTransfer? || o.value.SetAuthorityBlocked?)
  {
    if OnTokenProgram(ix) && |ix.data| > 0 {
      forall d | TransfersTo(ix, d) ensures Dest(ix) == Some(d) {}
      if Dest(ix).Some? {
        assert TransfersTo(ix, Dest(ix).value);
        assert Justified(env, Dest(ix).value, Mint(ix), ix.program.value, HasDex(env, ixs))
          <==> MayReceive(env, ixs, ix, Dest(ix).value);
      }
    }
  }

  /** What is acceptable, without reference to how it is checked. */
  lemma AcceptableExactly(env: Env, ixs: seq<Ix>)
    ensures Acceptable(env, ixs) <==>
      && (forall i :: 0 <= i < |ixs| && ixs[i].program.Some? ==> ixs[i].program.value in env.programAllowlist)
      && TransfersJustified(env, ixs)
      && NoSetAuthority(ixs)
      && ((exists i :: 0 <= i < |ixs| && ixs[i].program == Some(JUPITER_PROGRAM))
          || env.logs.None?
          || forall i, k :: 0 <= i < |env.logs.value| && InvokedProgram(env.logs.value[i]) == Some(k) ==> k in env.programAllowlist)
  {
    assert ProgramsKnown(env, ixs) <==>
      forall i :: 0 <= i < |ixs| && ixs[i].program.Some? ==> ixs[i].program.value in env.programAllowlist by {
      assert forall i :: 0 <= i < |ixs| ==>
        (Known(env, ixs[i]) <==> (ixs[i].program.Some? ==> ixs[i].program.value in env.programAllowlist));
    }
    ObjectionsExactly(env, ixs);
    SimulationExactly(env, ixs);
  }

  lemma ObjectionsExactly(env: Env, ixs: seq<Ix>)
    ensures NoObjection(env, ixs, HasDex(env, ixs)) <==> TransfersJustified(env, ixs) && NoSetAuthority(ixs)
  {
    var hasDex := HasDex(env, ixs);
    forall i | 0 <= i < |ixs|
      ensures Objection(env, ixs[i], hasDex).None? <==>
        && (forall d :: OnTokenProgram(ixs[i]) && TransfersTo(ixs[i], d) ==> MayReceive(env, ixs, ixs[i], d))
        && (OnTokenProgram(ixs[i]) && |ixs[i].data| > 0 ==> ixs[i].data[0] != 6)
    {
      ObjectionExactly(env, ixs, ixs[i]);
      var o := Objection(env, ixs[i], hasDex);
      if o.Some? && o.value.StandaloneTransfer? { assert o == Some(StandaloneTransfer(o.value.dest)); }
    }
  }

  lemma SimulationExactly(env: Env, ixs: seq<Ix>)
    ensures SimulationKnown(env, ixs) <==>
      || (exists i :: 0 <= i < |ixs| && ixs[i].program == Some(JUPITER_PROGRAM))
      || env.logs.None?
      || forall i, k :: 0 <= i < |env.logs.value| && InvokedProgram(env.logs.value[i]) == Some(k) ==> k in env.programAllowlist
  {
    assert Invokes(ixs, {JUPITER_PROGRAM}) <==> exists i :: 0 <= i < |ixs| && ixs[i].program == Some(JUPITER_PROGRAM);
    if env.logs.Some? {
      assert forall i :: 0 <= i < |env.logs.value| ==>
        (LineKnown(env, env.logs.value[i]) <==>
         forall k :: InvokedProgram(env.logs.value[i]) == Some(k) ==> k in env.programAllowlist);
    }
  }

  // ---------- the log pattern ----------

  /** /Program (\w{32,44}) invoke/ matches at the front of `s` with `k` captured. */
  ghost predicate MatchesFront(s: string, k: Key) {
    && 32 <= |k| <= 44 && (forall i :: 0 <= i < |k| ==> IsWordChar(k[i]))
    && "Program " + k + " invoke" <= s
  }

  /** The leftmost match of the pattern in `line` is at `i` and captures `k`. */
  ghost predicate LeftmostMatch(line: string, i: int, k: Key) {
    && 0 <= i <= |line| && MatchesFront(line[i..], k)
    && forall j, l :: 0 <= j < i ==> !MatchesFront(line[j..], l)
  }

  lemma {:induction false} WordChars(s: string)
    ensures forall i :: 0 <= i < WordLength(s) ==> IsWordChar(s[i])
    ensures WordLength(s) < |s| ==> !IsWordChar(s[WordLength(s)])
    decreases |s|
  {
    if s != "" && IsWordChar(s[0]) {
      WordChars(s[1..]);
      assert forall i :: 1 <= i < |s| ==> s[i] == s[1..][i - 1];
    }
  }

  lemma MatchHereExactly(s: string, k: Key)
    ensures MatchHere(s) == Some(k) <==> MatchesFront(s, k)
  {
    if MatchesFront(s, k) {
      var rest := s[8 + |k| + 7..];
      var pattern := "Program " + k + " invoke";
      assert s == pattern + rest;
      assert s == "Program " + k + " invoke" + rest;
      MatchAtFront(k, rest);
    }
    if MatchHere(s) == Some(k) {
      var rest := s[8..];
      WordChars(rest);
      assert k == rest[..|k|] && " invoke" <= rest[|k|..];
      assert s == "Program " + k + " invoke" + rest[|k| + 7..];
    }
  }

  /** In a log line, the program of the leftmost invocation is found, and nothing else. */
  lemma {:induction false} InvokedProgramExactly(line: string, k: Key)
    ensures InvokedProgram(line) == Some(k) <==> exists i :: LeftmostMatch(line, i, k)
    decreases |line|
  {
    forall l { MatchHereExactly(line, l); }
    assert line[0..] == line;
    if MatchHere(line).Some? {
      var l := MatchHere(line).value;
      assert MatchesFront(line[0..], l);
      assert LeftmostMatch(line, 0, l);
    } else if line == "" {
      assert forall i :: 0 <= i <= |line| ==> line[i..] == line;
    } else {
      var tail := line[1..];
      InvokedProgramExactly(tail, k);
      assert forall j :: 0 <= j <= |tail| ==> tail[j..] == line[j + 1..];
      forall i | LeftmostMatch(line, i, k) ensures LeftmostMatch(tail, i - 1, k) {
        forall j, l | 0 <= j < i - 1 ensures !MatchesFront(tail[j..], l) {
          assert tail[j..] == line[j + 1..];
        }
      }
      forall i | LeftmostMatch(tail, i, k) ensures LeftmostMatch(line, i + 1, k) {
        forall j, l | 0 <= j < i + 1 ensures !MatchesFront(line[j..], l) {
          if j > 0 { assert line[j..] == tail[j - 1..]; }
        }
      }
    }
  }

  lemma {:induction false} WordRun(word: string, rest: string)
    requires forall i :: 0 <= i < |word| ==> IsWordChar(word[i])
    requires rest == "" || !IsWordChar(rest[0])
    ensures WordLength(word + rest) == |word|
    decreases |word|
  {
    if word == "" {
      assert word + rest == rest;
    } else {
      assert (word + rest)[1..] == word[1..] + rest;
      WordRun(word[1..], rest);
    }
  }

  lemma MatchAtFront(program: Key, suffix: string)
    requires 32 <= |program| <= 44 && forall i :: 0 <= i < |program| ==> IsWordChar(program[i])
    ensures MatchHere("Program " + program + " invoke" + suffix) == Some(program)
  {
    var rest := program + (" invoke" + suffix);
    var line := "Program " + program + " invoke" + suffix;
    assert line == "Program " + rest;
    assert line[8..] == rest;
    WordRun(program, " invoke" + suffix);
    assert rest[..|program|] == program && rest[|program|..] == " invoke" + suffix;
    assert "Program " <= line && " invoke" <= rest[|program|..];
  }

  /** The line a program's invocation logs is recognised, whatever follows the depth bracket. */
  lemma InvocationIsRecognised(program: Key, suffix: string)
    requires 32 <= |program| <= 44 && forall i :: 0 <= i < |program| ==> IsWordChar(program[i])
    ensures InvokedProgram("Program " + program + " invoke" + suffix) == Some(program)
  {
    MatchAtFront(program, suffix);
  }
}
