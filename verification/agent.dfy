/** The decision logic of `yeet-agent/src/agent.rs`.

    The host side is reduced to what the secret-generation discipline reads
    and writes: the file name the `/etc/yeet/secret` link points at inside
    `/etc/yeet/secret.d` (none when there is no link) and the entries of
    `/etc/yeet/secret.d`. Everything the agent learns from processes, the
    network or the file system arrives as an `Environment` value. */
module Agent {
  import opened Wrappers
  import opened Strings
  import Ordering
  import Decimal

  /** The update instruction: what to realise, from where, signed by which key. */
  datatype RemoteStorePath = RemoteStorePath(storePath: string, substitutor: string, publicKey: string)

  /** What the server tells the agent to do on one poll. */
  datatype AgentAction = Nothing | Detach | SwitchTo(version: RemoteStorePath)

  /** `link`: the generation `/etc/yeet/secret` names; `dirs`: the entries of `secret.d`. */
  datatype HostState = HostState(link: Option<string>, dirs: set<string>)

  /** The target's `yeet-secrets.json`: missing, present but unreadable, or the
      names of the secrets it declares (the keys of its map). */
  datatype Manifest = Absent | Unreadable | Declared(names: set<string>)

  datatype Failure =
    | ConfigUnreadable
    | RealiseFailed
    | ManifestUnreadable
    | SecretNotFound
    | GenerationFailed
    | ActivationFailed
    | ActiveVersionUnknown
    | RemoveFailed

  /** The outcomes of everything outside the agent during one `update`:
      - `conf`: the lines of `/etc/nix/nix.conf`, if it opens;
      - `realised`: whether `nix-store --realise` succeeded;
      - `manifest`: the target's `yeet-secrets.json`;
      - `served`: the secrets the server returns to this host, by name;
      - `created`: whether writing the new generation succeeded;
      - `activateOk`: whether the activation command itself reported success;
      - `activeKnown`: whether `get_active_version` could read the active system;
      - `switched`: whether the active system is the target afterwards. */
  datatype Environment = Environment(
    conf: Option<seq<string>>,
    realised: bool,
    manifest: Manifest,
    served: map<string, Bytes>,
    created: bool,
    activateOk: bool,
    activeKnown: bool,
    switched: bool)

  /** The state after a step and whether the step succeeded. */
  datatype Outcome = Outcome(state: HostState, result: Result<(), Failure>)

  /** `trusted-public-keys`, split like `FallbackKeys`. */
  const TrustedKeysSetting := "trusted-pu" + "blic-keys"

  lemma SettingIsOneWord()
    ensures IsWord(TrustedKeysSetting) && IsWord("=")
  {
    assert Graphic("trusted-pu") && Graphic("blic-keys") && Graphic("=");
    GraphicConcat("trusted-pu", "blic-keys");
    GraphicIsWord(TrustedKeysSetting);
    GraphicIsWord("=");
  }

  /** Used when `nix.conf` has no `trusted-public-keys` line: the single token
      `cache.nixos.org-1:6NCHdD59X431o0gWypbMrAURkbJ16ZPMQFGspcDShjY=`. It is
      split into short pieces because the fact that it holds no whitespace is
      proved piece by piece, which a single long literal does not allow. */
  const FallbackKeys := "cache.nixo" + "s.org-1:6N" + "CHdD59X431" + "o0gWypbMrA"
    + "URkbJ16ZPM" + "QFGspcDShj" + "Y="

  lemma FallbackPiecesFront()
    ensures Graphic("cache.nixo") && Graphic("s.org-1:6N") && Graphic("CHdD59X431")
  {
  }

  lemma FallbackPiecesBack()
    ensures Graphic("o0gWypbMrA") && Graphic("URkbJ16ZPM") && Graphic("QFGspcDShj") && Graphic("Y=")
  {
  }

  /** The fallback is one whitespace-free token. */
  lemma FallbackIsOneWord()
    ensures IsWord(FallbackKeys)
  {
    FallbackPiecesFront();
    FallbackPiecesBack();
    var s := "cache.nixo";
    GraphicConcat(s, "s.org-1:6N");
    s := s + "s.org-1:6N";
    GraphicConcat(s, "CHdD59X431");
    s := s + "CHdD59X431";
    GraphicConcat(s, "o0gWypbMrA");
    s := s + "o0gWypbMrA";
    GraphicConcat(s, "URkbJ16ZPM");
    s := s + "URkbJ16ZPM";
    GraphicConcat(s, "QFGspcDShj");
    s := s + "QFGspcDShj";
    GraphicConcat(s, "Y=");
    GraphicIsWord(FallbackKeys);
  }

  /** The first line starting with `prefix`, if any. */
  function FirstStartingWith(lines: seq<string>, prefix: string): (r: Option<string>)
    ensures r.None? <==> forall i :: 0 <= i < |lines| ==> !StartsWith(lines[i], prefix)
    ensures r.Some? ==> exists i :: (0 <= i < |lines| && lines[i] == r.value
      && StartsWith(lines[i], prefix)
      && forall j :: 0 <= j < i ==> !StartsWith(lines[j], prefix))
  {
    if |lines| == 0 then None
    else if StartsWith(lines[0], prefix) then Some(lines[0])
    else
      var r := FirstStartingWith(lines[1..], prefix);
      assert forall i :: 0 < i < |lines| ==> lines[i] == lines[1..][i - 1];
      r
  }

  /** `Iterator::skip(n)` on a list of tokens. */
  function Skip(tokens: seq<string>, n: nat): seq<string> {
    if |tokens| <= n then [] else tokens[n..]
  }

  /** `trusted_public_keys`: the tokens after the first two of the first
      `trusted-public-keys` line (the setting's name and `=`), or of the
      fallback when there is none. `None` when `nix.conf` cannot be opened. */
  function TrustedPublicKeys(conf: Option<seq<string>>): (r: Option<seq<string>>)
    ensures r.None? <==> conf.None?
    ensures r.Some? ==> forall i :: 0 <= i < |r.value| ==> IsWord(r.value[i])
  {
    match conf
    case None => None
    case Some(lines) =>
      var line := match FirstStartingWith(lines, TrustedKeysSetting)
        case Some(l) => l
        case None => FallbackKeys;
      Some(Skip(SplitWhitespace(line), 2))
  }

  /** Without a `trusted-public-keys` line the fallback yields no key at all:
      its only token is skipped. */
  lemma NoSettingNoKeys(lines: seq<string>)
    requires forall i :: 0 <= i < |lines| ==> !StartsWith(lines[i], TrustedKeysSetting)
    ensures TrustedPublicKeys(Some(lines)) == Some([])
  {
    FallbackIsOneWord();
    SplitSingleWord(FallbackKeys);
  }

  /** The line `FirstStartingWith` picks is the earliest match. */
  lemma {:induction false} FirstMatchIsEarliest(lines: seq<string>, prefix: string, i: nat)
    requires i < |lines| && StartsWith(lines[i], prefix)
    requires forall j :: 0 <= j < i ==> !StartsWith(lines[j], prefix)
    ensures FirstStartingWith(lines, prefix) == Some(lines[i])
  {
    if i > 0 {
      assert lines[1..][i - 1] == lines[i];
      FirstMatchIsEarliest(lines[1..], prefix, i - 1);
    }
  }

  /** A well-formed `trusted-public-keys = k1 k2 ...` line, the first of its kind,
      yields exactly its keys. */
  lemma SettingLineYieldsKeys(lines: seq<string>, i: nat, keys: seq<string>)
    requires i < |lines|
    requires forall k :: 0 <= k < |keys| ==> IsWord(keys[k])
    requires lines[i] == Join([TrustedKeysSetting, "="] + keys, " ")
    requires forall j :: 0 <= j < i ==> !StartsWith(lines[j], TrustedKeysSetting)
    ensures TrustedPublicKeys(Some(lines)) == Some(keys)
  {
    SettingLineTokens(keys);
    FirstMatchIsEarliest(lines, TrustedKeysSetting, i);
    KeysOfSettingLine(lines, lines[i]);
  }

  /** The setting line starts with the setting's name and splits back into its tokens. */
  lemma SettingLineTokens(keys: seq<string>)
    requires forall k :: 0 <= k < |keys| ==> IsWord(keys[k])
    ensures var line := Join([TrustedKeysSetting, "="] + keys, " ");
            StartsWith(line, TrustedKeysSetting) && Skip(SplitWhitespace(line), 2) == keys
  {
    var tokens := [TrustedKeysSetting, "="] + keys;
    SettingTokensAreWords(keys);
    SplitJoin(tokens);
    JoinStartsWithFirst(tokens, " ");
    assert tokens[2..] == keys;
  }

  lemma KeysOfSettingLine(lines: seq<string>, line: string)
    requires FirstStartingWith(lines, TrustedKeysSetting) == Some(line)
    ensures TrustedPublicKeys(Some(lines)) == Some(Skip(SplitWhitespace(line), 2))
  {
  }

  lemma SettingTokensAreWords(keys: seq<string>)
    requires forall k :: 0 <= k < |keys| ==> IsWord(keys[k])
    ensures var tokens := [TrustedKeysSetting, "="] + keys;
            forall k :: 0 <= k < |tokens| ==> IsWord(tokens[k])
  {
    var tokens := [TrustedKeysSetting, "="] + keys;
    SettingIsOneWord();
    forall k | 0 <= k < |tokens| ensures IsWord(tokens[k]) {
      if k >= 2 {
        assert tokens[k] == keys[k - 2];
      }
    }
  }

  /** The key list `download` hands to `nix-store`: the trusted keys and the
      update's signing key, each once, in ascending order. */
  function DownloadKeys(conf: Option<seq<string>>, version: RemoteStorePath): (r: Option<seq<string>>)
    ensures r.None? <==> conf.None?
    ensures r.Some? ==> Ordering.StrictlySorted(r.value)
    ensures r.Some? ==> Ordering.Elems(r.value) == Ordering.Elems(TrustedPublicKeys(conf).value) + {version.publicKey}
  {
    match TrustedPublicKeys(conf)
    case None => None
    case Some(keys) =>
      var all := keys + [version.publicKey];
      assert Ordering.Elems(all) == Ordering.Elems(keys) + {version.publicKey};
      Some(Ordering.SortDedup(all))
  }

  /** The generation directory a link names is not the last 32-bit number, so
      the next number does not overflow. */
  predicate NoOverflow(link: Option<string>) {
    link.None? || Decimal.ParseU32(link.value) != Some(Decimal.U32Max)
  }

  /** The next generation number: one past the number the link names, or 0 when
      there is no link or its name is not a `u32`. */
  function NextGeneration(link: Option<string>): (g: nat)
    requires NoOverflow(link)
    ensures g <= Decimal.U32Max
  {
    match link
    case None => 0
    case Some(name) =>
      match Decimal.ParseU32(name)
      case Some(n) => n + 1
      case None => 0
  }

  /** Numbering: the first generation is 0, a link to generation `n` leads to
      `n + 1`, and a link whose name is not a number starts over at 0. */
  lemma GenerationNumbering(n: nat, name: string)
    requires n < Decimal.U32Max
    ensures NextGeneration(None) == 0
    ensures NextGeneration(Some(Decimal.ToDecimal(n))) == n + 1
    ensures Decimal.ParseU32(name).Some? && Decimal.ParseU32(name).value < Decimal.U32Max ==>
      NextGeneration(Some(name)) == Decimal.ParseU32(name).value + 1
    ensures Decimal.ParseU32(name).None? ==> NextGeneration(Some(name)) == 0
  {
    Decimal.ParseRendered(n);
  }

  /** A link named `007` or `+7` counts as generation 7, so the next one is 8. */
  lemma NonCanonicalLinkNames()
    ensures NextGeneration(Some("007")) == 8
    ensures NextGeneration(Some("+7")) == 8
  {
    Decimal.ParseExamples();
  }

  /** All-or-nothing fetch: every declared secret as served, or nothing when the
      server withholds any of them. */
  function FetchAll(names: set<string>, served: map<string, Bytes>): (r: Option<map<string, Bytes>>)
    ensures r.Some? <==> forall n :: n in names ==> n in served
    ensures r.Some? ==> r.value.Keys == names && forall n :: n in names ==> r.value[n] == served[n]
  {
    if names <= served.Keys then Some(map n | n in names :: served[n]) else None
  }

  /** `get_secrets`: read the manifest, fetch every declared secret, create the
      next generation and point the link at it. */
  function GetSecrets(st: HostState, manifest: Manifest, served: map<string, Bytes>, created: bool): (o: Outcome)
    requires NoOverflow(st.link)
    ensures manifest.Absent? ==> o == Outcome(st, Ok(()))
    ensures o.result.Err? && !(manifest.Declared? && FetchAll(manifest.names, served).Some?) ==> o.state == st
    ensures o.result.Ok? && manifest.Declared? ==>
      var gen := Decimal.ToDecimal(NextGeneration(st.link));
      o.state == HostState(Some(gen), st.dirs + {gen})
    ensures o.result.Err? ==> o.state.link == st.link && o.state.dirs <= st.dirs
    ensures o.result.Ok? <==> manifest.Absent? || (manifest.Declared? && FetchAll(manifest.names, served).Some? && created)
  {
    match manifest
    case Absent => Outcome(st, Ok(()))
    case Unreadable => Outcome(st, Err(ManifestUnreadable))
    case Declared(names) =>
      match FetchAll(names, served)
      case None => Outcome(st, Err(SecretNotFound))
      case Some(_) =>
        var gen := Decimal.ToDecimal(NextGeneration(st.link));
        if !created then
          Outcome(st.(dirs := st.dirs - {gen}), Err(GenerationFailed))
        else
          Outcome(HostState(Some(gen), st.dirs + {gen}), Ok(()))
  }

  /** A secret the server does not return stops `get_secrets` before any
      directory is created or the link moves. */
  lemma MissingSecretChangesNothing(st: HostState, names: set<string>, served: map<string, Bytes>, created: bool, missing: string)
    requires NoOverflow(st.link)
    requires missing in names && missing !in served
    ensures GetSecrets(st, Declared(names), served, created) == Outcome(st, Err(SecretNotFound))
  {
  }

  /** Each successful switch advances the generation number by one, so the new
      directory is never the one the link named before. */
  lemma GenerationsCountUp(st: HostState, names: set<string>, served: map<string, Bytes>)
    requires NoOverflow(st.link) && NextGeneration(st.link) < Decimal.U32Max
    requires GetSecrets(st, Declared(names), served, true).result.Ok?
    ensures var after := GetSecrets(st, Declared(names), served, true).state;
            NoOverflow(after.link) && NextGeneration(after.link) == NextGeneration(st.link) + 1
    ensures GetSecrets(st, Declared(names), served, true).state.link != st.link
  {
    var g := NextGeneration(st.link);
    Decimal.ParseRendered(g);
    if st.link.Some? && Decimal.ParseU32(st.link.value).Some? {
      var n := Decimal.ParseU32(st.link.value).value;
      assert g == n + 1;
      assert Decimal.ParseU32(Decimal.ToDecimal(g)) != Decimal.ParseU32(st.link.value);
    }
  }

  /** A failed write removes the new generation's directory and leaves the link. */
  lemma FailedGenerationIsRemoved(st: HostState, names: set<string>, served: map<string, Bytes>)
    requires NoOverflow(st.link)
    requires names <= served.Keys
    ensures var o := GetSecrets(st, Declared(names), served, false);
            && o.result == Err(GenerationFailed)
            && o.state.link == st.link
            && o.state.dirs == st.dirs - {Decimal.ToDecimal(NextGeneration(st.link))}
  {
  }

  /** The entries a commit leaves in `secret.d`: `keep` if it was there, nothing else. */
  function KeepOnly(dirs: set<string>, keep: string): (r: set<string>)
    ensures r <= {keep}
    ensures keep in r <==> keep in dirs
  {
    dirs * {keep}
  }

  /** `remove_all_dirs_unless`: every entry of the directory except `keep` is
      removed, one at a time; the result is what `Update` commits to. */
  method RemoveAllDirsUnless(dirs: set<string>, keep: string) returns (left: set<string>)
    ensures left == KeepOnly(dirs, keep)
  {
    left := dirs;
    var rest := dirs;
    while rest != {}
      invariant rest <= dirs
      invariant left == rest + (dirs * {keep})
      decreases rest
    {
      var d :| d in rest;
      if d != keep {
        left := left - {d};
      }
      rest := rest - {d};
    }
  }

  /** `update`: realise the target, fetch its secrets into a new generation,
      activate, then commit (keep only the generation the link names) or roll
      back (restore the link read before the fetch and delete the directory the
      link names after it). When the active system cannot be read, it stops
      after activation with neither. A rollback whose directory to delete is
      already gone fails there, after the link is restored: `remove_dir_all`
      reports a missing path as an error. */
  function Update(st: HostState, version: RemoteStorePath, env: Environment): (o: Outcome)
    requires NoOverflow(st.link)
    ensures env.conf.None? || !env.realised ==> o.state == st && o.result.Err?
    ensures o.result.Ok? ==> env.conf.Some? && env.realised && env.activeKnown && (env.switched || env.activateOk)
    ensures env.conf.Some? && env.realised && GetSecrets(st, env.manifest, env.served, env.created).result.Err?
      ==> o == GetSecrets(st, env.manifest, env.served, env.created)
  {
    match DownloadKeys(env.conf, version)
    case None => Outcome(st, Err(ConfigUnreadable))
    case Some(_) =>
      if !env.realised then Outcome(st, Err(RealiseFailed))
      else
        var current := st.link;
        var fetched := GetSecrets(st, env.manifest, env.served, env.created);
        if fetched.result.Err? then fetched
        else
          var next := fetched.state.link;
          if !env.activeKnown then Outcome(fetched.state, Err(ActiveVersionUnknown))
          else if !env.switched then
            var link := if current.Some? then current else next;
            if next.Some? && next.value !in fetched.state.dirs then
              Outcome(HostState(link, fetched.state.dirs), Err(RemoveFailed))
            else
              var dirs := if next.Some? then fetched.state.dirs - {next.value} else fetched.state.dirs;
              Outcome(HostState(link, dirs), if env.activateOk then Ok(()) else Err(ActivationFailed))
          else
            var dirs := if next.Some? then KeepOnly(fetched.state.dirs, next.value) else fetched.state.dirs;
            Outcome(fetched.state.(dirs := dirs), Ok(()))
  }

  /** Whether everything before activation went through. */
  predicate Prepared(st: HostState, env: Environment)
    requires NoOverflow(st.link)
  {
    env.conf.Some? && env.realised && GetSecrets(st, env.manifest, env.served, env.created).result.Ok?
  }

  /** Commit: the link names the new generation and it is the only entry left. */
  lemma CommitKeepsOnlyNewGeneration(st: HostState, version: RemoteStorePath, env: Environment)
    requires NoOverflow(st.link)
    requires Prepared(st, env) && env.activeKnown && env.switched && env.manifest.Declared?
    ensures var gen := Decimal.ToDecimal(NextGeneration(st.link));
            Update(st, version, env) == Outcome(HostState(Some(gen), {gen}), Ok(()))
  {
  }

  /** Rollback after a new generation: the link is restored when there was one,
      the new generation's directory is deleted, and every other entry stays. */
  lemma RollbackRestoresPreviousGeneration(st: HostState, version: RemoteStorePath, env: Environment)
    requires NoOverflow(st.link)
    requires Prepared(st, env) && env.activeKnown && !env.switched && env.manifest.Declared?
    ensures var gen := Decimal.ToDecimal(NextGeneration(st.link));
            var o := Update(st, version, env);
            && (st.link.Some? ==> o.state.link == st.link)
            && o.state.dirs == st.dirs - {gen}
            && (o.result.Ok? <==> env.activateOk)
  {
  }

  /** A declared secret the server withholds ends `update` with that failure and
      the host state untouched. */
  lemma UpdateStopsOnMissingSecret(st: HostState, version: RemoteStorePath, env: Environment, missing: string)
    requires NoOverflow(st.link)
    requires env.conf.Some? && env.realised && env.manifest.Declared?
    requires missing in env.manifest.names && missing !in env.served
    ensures Update(st, version, env) == Outcome(st, Err(SecretNotFound))
  {
    MissingSecretChangesNothing(st, env.manifest.names, env.served, env.created, missing);
  }

  /** When the active system cannot be read, `update` fails with the new
      generation linked and every older directory still in place. */
  lemma UnknownActiveVersionSkipsCleanup(st: HostState, version: RemoteStorePath, env: Environment)
    requires NoOverflow(st.link)
    requires Prepared(st, env) && !env.activeKnown && env.manifest.Declared?
    ensures var gen := Decimal.ToDecimal(NextGeneration(st.link));
            Update(st, version, env) == Outcome(HostState(Some(gen), st.dirs + {gen}), Err(ActiveVersionUnknown))
  {
  }

  /** As written, a rollback without a prior link leaves the link naming the
      generation it has just deleted. */
  lemma RollbackWithoutPriorLinkDangles(st: HostState, version: RemoteStorePath, env: Environment)
    requires st.link.None?
    requires Prepared(st, env) && env.activeKnown && !env.switched && env.manifest.Declared?
    ensures var o := Update(st, version, env);
            o.state.link == Some(Decimal.ToDecimal(0)) && Decimal.ToDecimal(0) !in o.state.dirs
  {
  }

  /** As written, when the target declares no secrets no generation is made, the
      link after the fetch is the link before it, and a failed activation deletes
      the directory of the CURRENT generation while the link keeps naming it. */
  lemma RollbackDeletesCurrentGeneration(st: HostState, version: RemoteStorePath, env: Environment)
    requires NoOverflow(st.link)
    requires st.link.Some? && env.conf.Some? && env.realised && env.manifest.Absent? && env.activeKnown && !env.switched
    ensures var o := Update(st, version, env);
            && o.state.link == st.link
            && st.link.value !in o.state.dirs
            && o.state.dirs == st.dirs - {st.link.value}
  {
  }

  /** A deploy without `yeet-secrets.json` makes no generation: a commit keeps
      only the linked generation, a rollback deletes the linked generation's
      directory (failing if it is already gone) and otherwise reports the
      activation's result, and an unreadable active system changes nothing. */
  lemma NoManifestUpdate(st: HostState, version: RemoteStorePath, env: Environment)
    requires NoOverflow(st.link)
    requires env.conf.Some? && env.realised && env.manifest.Absent?
    ensures var o := Update(st, version, env);
      && (!env.activeKnown ==> o == Outcome(st, Err(ActiveVersionUnknown)))
      && (env.activeKnown && env.switched ==>
            o == Outcome(st.(dirs := if st.link.Some? then KeepOnly(st.dirs, st.link.value) else st.dirs), Ok(())))
      && (env.activeKnown && !env.switched ==>
            && o.state.link == st.link
            && o.state.dirs == (if st.link.Some? then st.dirs - {st.link.value} else st.dirs)
            && (o.result.Ok? <==> env.activateOk && (st.link.None? || st.link.value in st.dirs))
            && (st.link.Some? && st.link.value !in st.dirs ==> o.result == Err(RemoveFailed)))
  {
  }

  /** A second failed deploy without `yeet-secrets.json` after the first one
      deleted the current generation fails, even when activation succeeds. */
  lemma RepeatedRollbackFails(st: HostState, version: RemoteStorePath, env: Environment)
    requires NoOverflow(st.link)
    requires st.link.Some? && env.conf.Some? && env.realised && env.manifest.Absent?
    requires env.activeKnown && !env.switched
    ensures var first := Update(st, version, env);
      && NoOverflow(first.state.link)
      && Update(first.state, version, env) == Outcome(first.state, Err(RemoveFailed))
  {
  }

  /** `agent_action`: only `SwitchTo` runs `update`; `Nothing` and `Detach`
      change nothing and succeed. */
  function AgentActionStep(st: HostState, action: AgentAction, env: Environment): (o: Outcome)
    requires action.SwitchTo? ==> NoOverflow(st.link)
    ensures !action.SwitchTo? ==> o == Outcome(st, Ok(()))
    ensures action.SwitchTo? ==> o == Update(st, action.version, env)
  {
    match action
    case Nothing => Outcome(st, Ok(()))
    case Detach => Outcome(st, Ok(()))
    case SwitchTo(version) => Update(st, version, env)
  }
}
