/**
  The policy check as the signer runs it: one pipeline over index-compiled (v0) instructions, one
  over parsed legacy instructions. Both are proved against the same declarative verdict.
 */
module Policy {
  import opened Options
  import opened PolicySpec

  datatype Compiled = Compiled(programIdIndex: nat, accountKeyIndexes: seq<nat>, data: seq<int>)

  datatype Parsed = Parsed(programId: Key, keys: seq<Key>, data: seq<int>)

  // ---------- resolved views of the two formats ----------

  function KeyAt(allKeys: seq<Key>, i: nat): Option<Key> {
    if i < |allKeys| then Some(allKeys[i]) else None
  }

  function ResolveV0(allKeys: seq<Key>, ix: Compiled): Ix {
    Ix(KeyAt(allKeys, ix.programIdIndex),
       seq(|ix.accountKeyIndexes|, i requires 0 <= i < |ix.accountKeyIndexes| => KeyAt(allKeys, ix.accountKeyIndexes[i])),
       ix.data)
  }

  function ResolveAllV0(allKeys: seq<Key>, ixs: seq<Compiled>): seq<Ix> {
    seq(|ixs|, i requires 0 <= i < |ixs| => ResolveV0(allKeys, ixs[i]))
  }

  function ResolveLegacy(ix: Parsed): Ix {
    Ix(Some(ix.programId), seq(|ix.keys|, i requires 0 <= i < |ix.keys| => Some(ix.keys[i])), ix.data)
  }

  function ResolveAllLegacy(ixs: seq<Parsed>): seq<Ix> {
    seq(|ixs|, i requires 0 <= i < |ixs| => ResolveLegacy(ixs[i]))
  }

  /** The compiled instruction names, through in-range indexes, exactly the parsed one. */
  predicate Compiles(allKeys: seq<Key>, c: Compiled, p: Parsed) {
    && c.programIdIndex < |allKeys| && allKeys[c.programIdIndex] == p.programId
    && |c.accountKeyIndexes| == |p.keys|
    && (forall i :: 0 <= i < |p.keys| ==> c.accountKeyIndexes[i] < |allKeys| && allKeys[c.accountKeyIndexes[i]] == p.keys[i])
    && c.data == p.data
  }

  lemma CompiledResolvesToParsed(allKeys: seq<Key>, cs: seq<Compiled>, ps: seq<Parsed>)
    requires |cs| == |ps| && forall i :: 0 <= i < |cs| ==> Compiles(allKeys, cs[i], ps[i])
    ensures ResolveAllV0(allKeys, cs) == ResolveAllLegacy(ps)
  {
    forall i | 0 <= i < |cs| ensures ResolveV0(allKeys, cs[i]) == ResolveLegacy(ps[i]) {
      assert Compiles(allKeys, cs[i], ps[i]);
      assert ResolveV0(allKeys, cs[i]).accounts == ResolveLegacy(ps[i]).accounts;
    }
  }

  /** A resolved field is present exactly when its index is in range, and is then that key; a parsed
      field is always itself; the data is never touched. */
  lemma ResolutionKeepsFields(allKeys: seq<Key>, c: Compiled, p: Parsed)
    ensures var ix := ResolveV0(allKeys, c);
      && ix.data == c.data && |ix.accounts| == |c.accountKeyIndexes|
      && (forall k :: ix.program == Some(k) <==> c.programIdIndex < |allKeys| && allKeys[c.programIdIndex] == k)
      && (forall i, k :: 0 <= i < |ix.accounts| ==>
            (ix.accounts[i] == Some(k) <==> c.accountKeyIndexes[i] < |allKeys| && allKeys[c.accountKeyIndexes[i]] == k))
    ensures var ix := ResolveLegacy(p);
      && ix.data == p.data && |ix.accounts| == |p.keys| && ix.program == Some(p.programId)
      && (forall i :: 0 <= i < |p.keys| ==> ix.accounts[i] == Some(p.keys[i]))
  {
  }

  // ---------- insertion-ordered sets ----------

  /** What a JavaScript Set holds, in order, after adding the present keys one by one. */
  function FirstSeen(ks: seq<Option<Key>>): seq<Key>
    decreases |ks|
  {
    if ks == [] then []
    else
      var before, last := FirstSeen(ks[..|ks| - 1]), ks[|ks| - 1];
      if last.Some? && last.value !in before then before + [last.value] else before
  }

  lemma {:induction false} SeenExactly(ks: seq<Option<Key>>, k: Key)
    ensures k in FirstSeen(ks) <==> Some(k) in ks
    decreases |ks|
  {
    if ks != [] {
      SeenExactly(ks[..|ks| - 1], k);
      assert ks == ks[..|ks| - 1] + [ks[|ks| - 1]];
    }
  }

  /** The first key of the set that is not allowed is the first one met that is not allowed. */
  lemma {:induction false} FirstSeenKeepsFirst(ks: seq<Option<Key>>, allowed: set<Key>, i: nat) returns (m: nat)
    requires i < |FirstSeen(ks)| && FirstSeen(ks)[i] !in allowed
    requires forall j :: 0 <= j < i ==> FirstSeen(ks)[j] in allowed
    ensures m < |ks| && ks[m] == Some(FirstSeen(ks)[i])
    ensures forall j :: 0 <= j < m && ks[j].Some? ==> ks[j].value in allowed
    decreases |ks|
  {
    var init, last := ks[..|ks| - 1], ks[|ks| - 1];
    var before := FirstSeen(init);
    if i < |before| {
      assert forall j :: 0 <= j <= i ==> FirstSeen(ks)[j] == before[j];
      m := FirstSeenKeepsFirst(init, allowed, i);
      assert forall j :: 0 <= j < |init| ==> init[j] == ks[j];
    } else {
      m := |ks| - 1;
      forall j | 0 <= j < m && ks[j].Some? ensures ks[j].value in allowed {
        assert init[j] == Some(ks[j].value);
        SeenExactly(init, ks[j].value);
        var n :| 0 <= n < |before| && before[n] == ks[j].value;
        assert FirstSeen(ks)[n] == before[n];
      }
    }
  }

  /** The loop `for (const pid of ids) if (!allowed.has(pid)) return ..`. */
  method FirstNotAllowed(ids: seq<Key>, allowed: set<Key>) returns (r: Option<Key>, ghost at: nat)
    ensures r.None? ==> forall i :: 0 <= i < |ids| ==> ids[i] in allowed
    ensures r.Some? ==> at < |ids| && ids[at] == r.value && r.value !in allowed
    ensures r.Some? ==> forall j :: 0 <= j < at ==> ids[j] in allowed
  {
    at := 0;
    for i := 0 to |ids|
      invariant forall j :: 0 <= j < i ==> ids[j] in allowed
    {
      if ids[i] !in allowed { return Some(ids[i]), i; }
    }
    r := None;
  }

  method AnyIn(ids: seq<Key>, programs: set<Key>) returns (found: bool)
    ensures found <==> exists i :: 0 <= i < |ids| && ids[i] in programs
  {
    for i := 0 to |ids|
      invariant forall j :: 0 <= j < i ==> ids[j] !in programs
    {
      if ids[i] in programs { return true; }
    }
    return false;
  }

  function Programs(ixs: seq<Ix>): seq<Option<Key>> {
    seq(|ixs|, i requires 0 <= i < |ixs| => ixs[i].program)
  }

  method ExtractProgramIds(allKeys: seq<Key>, ixs: seq<Compiled>) returns (ids: seq<Key>)
    ensures ids == FirstSeen(Programs(ResolveAllV0(allKeys, ixs)))
  {
    ghost var ks := Programs(ResolveAllV0(allKeys, ixs));
    ids := [];
    for i := 0 to |ixs|
      invariant ids == FirstSeen(ks[..i])
    {
      assert ks[..i + 1][..i] == ks[..i] && ks[..i + 1][i] == KeyAt(allKeys, ixs[i].programIdIndex);
      var programId := KeyAt(allKeys, ixs[i].programIdIndex);
      if programId.Some? && programId.value !in ids {
        ids := ids + [programId.value];
      }
    }
    assert ks[..|ixs|] == ks;
  }

  method ExtractInvokedPrograms(logs: seq<string>) returns (programs: seq<Key>)
    ensures programs == FirstSeen(seq(|logs|, i requires 0 <= i < |logs| => InvokedProgram(logs[i])))
  {
    ghost var ks := seq(|logs|, i requires 0 <= i < |logs| => InvokedProgram(logs[i]));
    programs := [];
    for i := 0 to |logs|
      invariant programs == FirstSeen(ks[..i])
    {
      assert ks[..i + 1][..i] == ks[..i] && ks[..i + 1][i] == InvokedProgram(logs[i]);
      var matched := InvokedProgram(logs[i]);
      if matched.Some? && matched.value !in programs {
        programs := programs + [matched.value];
      }
    }
    assert ks[..|logs|] == ks;
  }

  // ---------- the checks shared by the two pipelines ----------

  method IsAtaForWhitelistedOwner(env: Env, dest: Key, mint: Key, program: Key) returns (r: bool)
    ensures r <==> IsWhitelistedAta(env, dest, mint, program)
  {
    var rest := env.destinationWhitelist;
    while rest != {}
      invariant rest <= env.destinationWhitelist
      invariant forall o :: o in env.destinationWhitelist && o !in rest ==> env.ataOf(o, program, mint) != Some(dest)
      decreases rest
    {
      var owner :| owner in rest;
      if env.ataOf(owner, program, mint) == Some(dest) { return true; }
      rest := rest - {owner};
    }
    return false;
  }

  method CheckTransferDestination(env: Env, dest: Key, hasDex: bool, mint: Option<Key>, program: Key) returns (v: Verdict)
    ensures v == if Justified(env, dest, mint, program, hasDex) then Allowed else Rejected(StandaloneTransfer(dest))
  {
    if dest in env.destinationWhitelist { return Allowed; }
    if mint.Some? {
      var isAta := IsAtaForWhitelistedOwner(env, dest, mint.value, program);
      if isAta { return Allowed; }
    }
    if hasDex { return Allowed; }
    var owner := env.ownerOf(dest);
    if owner.Some? && owner.value != SYSTEM_PROGRAM && owner.value in env.programAllowlist { return Allowed; }
    return Rejected(StandaloneTransfer(dest));
  }

  method CheckSimulation(env: Env, hasJupiter: bool) returns (v: Verdict)
    ensures v == Allowed || (v.Rejected? && v.reason.UnknownInvoked?)
    ensures v == Allowed <==>
      hasJupiter || env.logs.None? || forall i :: 0 <= i < |env.logs.value| ==> LineKnown(env, env.logs.value[i])
    ensures v.Rejected? ==> FirstUnknownInvoked(env, v.reason.program)
  {
    if !hasJupiter && env.logs.Some? {
      var logs := env.logs.value;
      ghost var ks := seq(|logs|, i requires 0 <= i < |logs| => InvokedProgram(logs[i]));
      var invoked := ExtractInvokedPrograms(logs);
      ghost var at;
      var unknown;
      unknown, at := FirstNotAllowed(invoked, env.programAllowlist);
      if unknown.Some? {
        var m := FirstSeenKeepsFirst(ks, env.programAllowlist, at);
        assert ks[m] == InvokedProgram(logs[m]);
        assert !LineKnown(env, logs[m]);
        assert forall j :: 0 <= j < m ==> ks[j] == InvokedProgram(logs[j]);
        return Rejected(UnknownInvoked(unknown.value));
      }
      forall i | 0 <= i < |logs| ensures LineKnown(env, logs[i]) {
        if InvokedProgram(logs[i]).Some? {
          assert ks[i] == Some(InvokedProgram(logs[i]).value);
          SeenExactly(ks, InvokedProgram(logs[i]).value);
        }
      }
    }
    return Allowed;
  }

  // ---------- the two pipelines ----------

  lemma ProgramSetSpeaksForInstructions(env: Env, ixs: seq<Ix>, ids: seq<Key>, programs: set<Key>)
    requires forall k :: k in ids <==> Some(k) in Programs(ixs)
    ensures (exists i :: 0 <= i < |ids| && ids[i] in programs) <==> Invokes(ixs, programs)
    ensures (forall i :: 0 <= i < |ids| ==> ids[i] in env.programAllowlist) <==> ProgramsKnown(env, ixs)
  {
    var ks := Programs(ixs);
    forall i | 0 <= i < |ixs| && ixs[i].program.Some? ensures ixs[i].program.value in ids {
      assert ks[i] == Some(ixs[i].program.value);
    }
    forall i | 0 <= i < |ids| ensures exists j :: 0 <= j < |ixs| && ixs[j].program == Some(ids[i]) {
      assert Some(ids[i]) in ks;
      var j :| 0 <= j < |ks| && ks[j] == Some(ids[i]);
      assert ixs[j].program == Some(ids[i]);
    }
    if ProgramsKnown(env, ixs) {
      forall i | 0 <= i < |ids| ensures ids[i] in env.programAllowlist {
        var j :| 0 <= j < |ixs| && ixs[j].program == Some(ids[i]);
        assert Known(env, ixs[j]);
      }
    }
  }

  lemma DedupedFirstUnknown(env: Env, ixs: seq<Ix>, at: nat)
    requires at < |FirstSeen(Programs(ixs))| && FirstSeen(Programs(ixs))[at] !in env.programAllowlist
    requires forall j :: 0 <= j < at ==> FirstSeen(Programs(ixs))[j] in env.programAllowlist
    ensures FirstUnknownProgram(env, ixs, FirstSeen(Programs(ixs))[at])
  {
    var ks := Programs(ixs);
    var m := FirstSeenKeepsFirst(ks, env.programAllowlist, at);
    assert forall j :: 0 <= j < m ==> ks[j] == ixs[j].program && Known(env, ixs[j]);
    assert ixs[m].program == Some(FirstSeen(ks)[at]);
  }

  method CheckVersioned(env: Env, allKeys: Option<seq<Key>>, ixs: seq<Compiled>) returns (v: Verdict)
    ensures allKeys.None? ==> v == Rejected(AltResolutionFailed)
    ensures allKeys.Some? ==> Decides(env, ResolveAllV0(allKeys.value, ixs), v)
    ensures v == Allowed ==> allKeys.Some? && NoSetAuthority(ResolveAllV0(allKeys.value, ixs))
    ensures v == Allowed ==> TransfersJustified(env, ResolveAllV0(allKeys.value, ixs))
  {
    if allKeys.None? { return Rejected(AltResolutionFailed); }
    var keys := allKeys.value;
    ghost var views := ResolveAllV0(keys, ixs);
    var programIds := ExtractProgramIds(keys, ixs);
    forall k { SeenExactly(Programs(views), k); }
    ProgramSetSpeaksForInstructions(env, views, programIds, env.dexPrograms);
    ProgramSetSpeaksForInstructions(env, views, programIds, {JUPITER_PROGRAM});

    ghost var at;
    var unknown;
    unknown, at := FirstNotAllowed(programIds, env.programAllowlist);
    if unknown.Some? {
      DedupedFirstUnknown(env, views, at);
      return Rejected(UnknownProgram(unknown.value));
    }
    var hasDex := AnyIn(programIds, env.dexPrograms);
    var objection := InstructionChecksV0(env, keys, ixs, hasDex);
    if objection.Some? { return Rejected(objection.value); }
    var hasJupiter := AnyIn(programIds, {JUPITER_PROGRAM});
    ObjectionsExactly(env, views);
    v := CheckSimulation(env, hasJupiter);
  }

  method InstructionChecksV0(env: Env, allKeys: seq<Key>, ixs: seq<Compiled>, hasDex: bool) returns (r: Option<Reason>)
    ensures r.None? ==> NoObjection(env, ResolveAllV0(allKeys, ixs), hasDex)
    ensures r.Some? ==> FirstObjection(env, ResolveAllV0(allKeys, ixs), hasDex, r.value)
    ensures r.Some? ==> r.value.StandaloneTransfer? || r.value.SetAuthorityBlocked?
  {
    ghost var views := ResolveAllV0(allKeys, ixs);
    for i := 0 to |ixs|
      invariant forall j :: 0 <= j < i ==> Objection(env, views[j], hasDex).None?
    {
      var ix := ixs[i];
      var programId := KeyAt(allKeys, ix.programIdIndex);
      if !(programId == Some(TOKEN_PROGRAM) || programId == Some(TOKEN_2022)) || |ix.data| == 0 { continue; }
      var disc := ix.data[0];
      if disc == SPL_TRANSFER || disc == SPL_TRANSFER_CHECKED {
        var destPos := if disc == SPL_TRANSFER then 1 else 2;
        var dest := if destPos < |ix.accountKeyIndexes| then KeyAt(allKeys, ix.accountKeyIndexes[destPos]) else None;
        var mint := if disc == SPL_TRANSFER_CHECKED && 1 < |ix.accountKeyIndexes|
                    then KeyAt(allKeys, ix.accountKeyIndexes[1]) else None;
        assert dest == Dest(views[i]) && mint == Mint(views[i]);
        if dest.Some? {
          var check := CheckTransferDestination(env, dest.value, hasDex, mint, programId.value);
          if check.Rejected? {
            assert Objection(env, views[i], hasDex) == Some(check.reason);
            return Some(check.reason);
          }
        }
      } else if disc == SPL_SET_AUTHORITY {
        assert Objection(env, views[i], hasDex) == Some(SetAuthorityBlocked);
        return Some(SetAuthorityBlocked);
      }
    }
    r := None;
  }

  method CheckLegacy(env: Env, ixs: seq<Parsed>) returns (v: Verdict)
    ensures Decides(env, ResolveAllLegacy(ixs), v)
    ensures v == Allowed ==> TransfersJustified(env, ResolveAllLegacy(ixs)) && NoSetAuthority(ResolveAllLegacy(ixs))
  {
    ghost var views := ResolveAllLegacy(ixs);
    var programIds := seq(|ixs|, i requires 0 <= i < |ixs| => ixs[i].programId);
    forall k ensures k in programIds <==> Some(k) in Programs(views) {
      var ks := Programs(views);
      assert forall i :: 0 <= i < |ixs| ==> ks[i] == Some(programIds[i]);
      if Some(k) in ks { var i :| 0 <= i < |ks| && ks[i] == Some(k); assert programIds[i] == k; }
    }
    ProgramSetSpeaksForInstructions(env, views, programIds, env.dexPrograms);
    ProgramSetSpeaksForInstructions(env, views, programIds, {JUPITER_PROGRAM});

    ghost var at;
    var unknown;
    unknown, at := FirstNotAllowed(programIds, env.programAllowlist);
    if unknown.Some? {
      assert views[at].program == Some(unknown.value);
      forall j | 0 <= j < at ensures Known(env, views[j]) {
        assert views[j].program == Some(programIds[j]);
      }
      return Rejected(UnknownProgram(unknown.value));
    }
    var hasDex := AnyIn(programIds, env.dexPrograms);
    var objection := InstructionChecksLegacy(env, ixs, hasDex);
    if objection.Some? { return Rejected(objection.value); }
    var hasJupiter := AnyIn(programIds, {JUPITER_PROGRAM});
    ObjectionsExactly(env, views);
    v := CheckSimulation(env, hasJupiter);
  }

  method InstructionChecksLegacy(env: Env, ixs: seq<Parsed>, hasDex: bool) returns (r: Option<Reason>)
    ensures r.None? ==> NoObjection(env, ResolveAllLegacy(ixs), hasDex)
    ensures r.Some? ==> FirstObjection(env, ResolveAllLegacy(ixs), hasDex, r.value)
    ensures r.Some? ==> r.value.StandaloneTransfer? || r.value.SetAuthorityBlocked?
  {
    ghost var views := ResolveAllLegacy(ixs);
    for i := 0 to |ixs|
      invariant forall j :: 0 <= j < i ==> Objection(env, views[j], hasDex).None?
    {
      var ix := ixs[i];
      if !(ix.programId == TOKEN_PROGRAM || ix.programId == TOKEN_2022) || |ix.data| == 0 { continue; }
      var disc := ix.data[0];
      if disc == SPL_TRANSFER || disc == SPL_TRANSFER_CHECKED {
        var destPos := if disc == SPL_TRANSFER then 1 else 2;
        var dest := KeyAt(ix.keys, destPos);
        var mint := if disc == SPL_TRANSFER_CHECKED then KeyAt(ix.keys, 1) else None;
        assert dest == Dest(views[i]) && mint == Mint(views[i]);
        if dest.Some? {
          var check := CheckTransferDestination(env, dest.value, hasDex, mint, ix.programId);
          if check.Rejected? {
            assert Objection(env, views[i], hasDex) == Some(check.reason);
            return Some(check.reason);
          }
        }
      } else if disc == SPL_SET_AUTHORITY {
        assert Objection(env, views[i], hasDex) == Some(SetAuthorityBlocked);
        return Some(SetAuthorityBlocked);
      }
    }
    r := None;
  }

  /** The two pipelines give the same verdict and the same reason on the same instructions. */
  method PipelinesAgree(env: Env, allKeys: seq<Key>, cs: seq<Compiled>, ps: seq<Parsed>) returns (v0: Verdict, legacy: Verdict)
    requires |cs| == |ps| && forall i :: 0 <= i < |cs| ==> Compiles(allKeys, cs[i], ps[i])
    ensures v0 == legacy
    ensures v0 == Allowed <==> Acceptable(env, ResolveAllLegacy(ps))
  {
    v0 := CheckVersioned(env, Some(allKeys), cs);
    legacy := CheckLegacy(env, ps);
    CompiledResolvesToParsed(allKeys, cs, ps);
    VerdictIsUnique(env, ResolveAllLegacy(ps), v0, legacy);
    AllowedExactly(env, ResolveAllLegacy(ps), v0);
  }
}
