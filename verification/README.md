# yeet: policy store, secret store and agent secret generations in Dafny

This project models three pieces of the yeet fleet-deployment system and proves properties about them.

- **Policy store** (`yeet-api/src/auth.rs`, module `Auth`). This is a registry of valid tags plus a map from `(identity, action)` to a tag set. A permission check succeeds when the stored set and the resource's tags share at least one tag.
- **Server secret store** (`yeet-server/src/secret_store.rs`, module `SecretStore`). This holds ciphertexts under the server's age key, and for each secret a list of the hosts allowed to fetch it. Handing a secret to a host decrypts it with the store key and re-encrypts it for the host.
- **Agent secret generations** (`yeet-agent/src/agent.rs`, module `Agent`). This is the decision logic of one update over an abstract host state. The state has two parts:
  - the generation the `/etc/yeet/secret` link names;
  - the entries of `/etc/yeet/secret.d`.

  The logic covers next-generation numbering, the all-or-nothing fetch, the link switch, commit versus rollback, `agent_action` dispatch, and the pure helpers that compute the key list handed to `nix-store`.

Supporting modules:
- `Wrappers` defines `Option` and `Result`.
- `Strings` covers `starts_with`, `split_whitespace` and `join`.
- `Ordering` covers `Ord for String` and `sort` followed by `dedup`.
- `Decimal` covers `parse::<u32>` and `format!("{n}")`.

Parameters stand in for everything outside the logic:
- The age primitives are the `SecretStore.Age` record of functions, passed in.
- UUID generation is the `drawn` tag passed to `CreateTag`, required not to be registered yet.
- What the agent observes of processes, the network and the disk arrives as an `Agent.Environment` value:
  - the lines of `nix.conf`;
  - whether `nix-store --realise` succeeded;
  - the `yeet-secrets.json` manifest;
  - the secrets the server returns;
  - whether writing the generation succeeded;
  - whether activation reported success;
  - whether the active system could be read afterwards;
  - whether the active system is the target afterwards.

Facts about the code that the model keeps:
- The code has no wildcard tag or wildcard action.
- An identity holds one tag set per action. `set_policy` replaces that set; no union of several policies is formed.
- Secrets are gated by per-secret host lists, not by tags.
- A missing secret makes the agent stop at that point. No batch-level "partial access denied" answer exists.
- An activation that reports success but does not switch the system still ends `update` with success, after the rollback.
- A failed activation can delete the current generation's directory (see `Agent.RollbackDeletesCurrentGeneration`).

## Model

| member | source | states |
|---|---|---|
| Auth.Empty | yeet-api/src/auth.rs:116-120 | The `Default` store has no tags and no policies |
| Auth.GetTags | yeet-api/src/auth.rs:149-155 | The stored set for (o, a), or the empty set when there is none; SetPolicy and DeletePolicy state their effect through it |
| Auth.CreateTag | yeet-api/src/auth.rs:123-128 | The drawn tag is returned and added to the registry, which grows by exactly one; no policy changes |
| Auth.CreateTagGrantsNothing | yeet-api/src/auth.rs:123-128 | Creating a tag changes no permission decision |
| Auth.DeleteTag | yeet-api/src/auth.rs:130-136 | The tag leaves the registry and every policy's set; every policy key survives, and every other tag keeps its membership |
| Auth.DeleteTagRevokes | yeet-api/src/auth.rs:179-193 | After deleting t, a check succeeds exactly when it would have succeeded for the resource's tags other than t; a resource tagged only t is denied |
| Auth.SetPolicy | yeet-api/src/auth.rs:138-142 | get_tags(o, a) becomes exactly the given set, overwriting any earlier one; every other (identity, action) key and the registry are unchanged |
| Auth.SetPolicyDecides | yeet-api/src/auth.rs:138-161 | Right after set_policy(o, a, S), the check for (o, a) is true iff S meets the resource's tags; checks for other actions keep their answer |
| Auth.DeletePolicy | yeet-api/src/auth.rs:144-147 | Returns the previous set iff the key existed; removes only that key; leaves the registry; get_tags(o, a) is then empty |
| Auth.DeletePolicyRevokes | yeet-api/src/auth.rs:195-209 | After delete_policy(o, a) no resource passes the check for (o, a); every other key keeps its decisions |
| Auth.CheckPermission | yeet-api/src/auth.rs:157-161 | True iff some tag is both granted to (o, a) and carried by the resource: ANY shared tag suffices |
| Auth.SharedTag | yeet-api/src/auth.rs:160 | The intersection count is positive iff some tag lies in both sets |
| Auth.NoPolicyDeniesEverything | yeet-api/src/auth.rs:149-155 | Without a policy for (o, a), get_tags is empty and the check fails for every tag set |
| Auth.ActionsAreIsolated | yeet-api/src/auth.rs:107-114 | A policy on Host::Rename permits renaming a host with the tag and does not permit Host::Remove on it |
| Auth.GrantThenRevokeScenario | yeet-api/src/auth.rs:169-209 | The unit tests in sequence: allowed after set_policy, denied after delete_tag, denied after delete_policy |
| SecretStore.New | yeet-server/src/secret_store.rs:39-44 | A new store holds no secrets and no lists |
| SecretStore.AddSecret | yeet-server/src/secret_store.rs:45-57 | Fails with a decryption error, store untouched, iff the store key cannot decrypt the bytes; otherwise inserts or overwrites only that secret, ACL untouched |
| SecretStore.GetSecretFor | yeet-server/src/secret_store.rs:59-83 | None unless the host is on the secret's list and the secret exists; an authorised host asking for an existing secret whose decryption and re-encryption succeed gets exactly that re-encryption; a decryption error iff the stored bytes do not decrypt; an encryption error iff they decrypt but the re-encryption fails |
| SecretStore.CreateAndRetrieve | yeet-server/src/secret_store.rs:166-185 | With sound age, a secret added and granted to a host reaches that host as the original plaintext |
| SecretStore.NotGrantedNotServed | yeet-server/src/secret_store.rs:187-203 | A secret stored without any grant is handed to no host |
| SecretStore.AddAccessFor | yeet-server/src/secret_store.rs:85-88 | The host ends up authorised; the list is the old list with the host appended at the end, even when already listed; the entry is created when missing; nothing else changes |
| SecretStore.AddAccessServes | yeet-server/src/secret_store.rs:85-88 | After add_access_for(s, h), the host is served s, re-encrypted for it, whenever s exists and decryption and encryption succeed |
| SecretStore.RemoveAccessFor | yeet-server/src/secret_store.rs:90-97 | The host is no longer authorised; every other host keeps its standing; the list becomes the old list filtered by `retain` (see Without and WithoutAppend: order and multiplicity of the others kept); an entry exists afterwards even if there was none; other secrets and the ciphertexts are unchanged |
| SecretStore.Without | yeet-server/src/secret_store.rs:96 | Every copy of the host goes; every other host keeps its multiplicity |
| SecretStore.WithoutLength | yeet-server/src/secret_store.rs:96 | The list shrinks by exactly the number of copies of the removed host |
| SecretStore.WithoutAppend | yeet-server/src/secret_store.rs:96 | The hosts that remain keep their original order |
| SecretStore.RemoveAccessDenies | yeet-server/src/secret_store.rs:205-229 | After remove_access_for(s, h), get_secret_for(s, h) returns None in every store |
| SecretStore.AllAcl | yeet-server/src/secret_store.rs:111-114 | The returned map has exactly the store's secrets with lists, each with its exact list, and so decides authorisation: h may fetch s iff h is listed under s |
| SecretStore.ListSecrets | yeet-server/src/secret_store.rs:116-119 | Lists exactly the stored secret names, each once, in no specified order |
| SecretStore.Replace | yeet-server/src/secret_store.rs:125-129 | Same length; each position holding the old name now holds the new one; every other position is unchanged |
| SecretStore.ReplaceMembership | yeet-server/src/secret_store.rs:125-129 | On one list, the old name disappears, the new name is present iff either name was, and every other name keeps its membership |
| SecretStore.RenameHost | yeet-server/src/secret_store.rs:121-130 | All ACL keys, list lengths and positions are kept, and every occurrence of the old name becomes the new one; ciphertexts are unchanged |
| SecretStore.RenameHostMovesAccess | yeet-server/src/secret_store.rs:303-322 | After a rename the old name has no access; the new name has access iff the old or the new name had it; other hosts are unaffected |
| SecretStore.RemoveHost | yeet-server/src/secret_store.rs:132-138 | The host is on no list; every ACL key is kept; each list loses only that host |
| SecretStore.RemoveHostDenies | yeet-server/src/secret_store.rs:363-378 | A removed host is served no secret |
| SecretStore.RenameSecret | yeet-server/src/secret_store.rs:140-150 | The ciphertext and the list each move from the old name to the new one when present; a missing old entry leaves the new name as it was; the old name is gone when the names differ; other names are unchanged |
| SecretStore.RenameSecretServesUnderNewName | yeet-server/src/secret_store.rs:324-343 | A renamed secret is served under the new name exactly as it was under the old one, and no longer under the old one |
| SecretStore.RemoveSecret | yeet-server/src/secret_store.rs:152-157 | Both the ciphertext and the list of that secret are deleted, and nothing else |
| SecretStore.RemoveSecretForgets | yeet-server/src/secret_store.rs:345-361 | A removed secret is neither listed nor served and has an empty ACL |
| Strings.SplitWhitespace | yeet-agent/src/agent.rs:141 | Every token is non-empty and whitespace-free, and the tokens hold exactly the non-whitespace characters in order |
| Strings.SplitWordThen | yeet-agent/src/agent.rs:141 | A word followed by whitespace or the end is split off as one whole token |
| Strings.SplitSkipsWhitespace | yeet-agent/src/agent.rs:141 | Whitespace before the first word yields no token; with SplitWordThen this fixes every split point |
| Strings.SplitJoin | yeet-agent/src/agent.rs:141 | Splitting a space-joined list of tokens gives the list back |
| Agent.FirstStartingWith | yeet-agent/src/agent.rs:137 | None iff no line starts with the prefix; otherwise the earliest line that does |
| Agent.TrustedPublicKeys | yeet-agent/src/agent.rs:132-145 | Fails iff nix.conf cannot be opened; every key returned is a whitespace-free token |
| Agent.NoSettingNoKeys | yeet-agent/src/agent.rs:137-142 | Without a trusted-public-keys line, the single-token fallback yields no key |
| Agent.SettingLineYieldsKeys | yeet-agent/src/agent.rs:132-145 | The first line "trusted-public-keys = k1 ... kn" yields exactly k1 ... kn |
| Ordering.Insert | yeet-agent/src/agent.rs:207-208 | Inserting into an ascending list without repeats keeps it so, and adds exactly the new key |
| Ordering.SortDedup | yeet-agent/src/agent.rs:207-208 | The result is strictly ascending and holds exactly the input's keys |
| Ordering.StrictlySortedUnique | yeet-agent/src/agent.rs:207-208 | Two strictly ascending lists with the same keys are equal, so sort followed by dedup has one possible result |
| Ordering.LessTransitive | yeet-agent/src/agent.rs:207 | String order is transitive |
| Ordering.LessTotal | yeet-agent/src/agent.rs:207 | Any two distinct strings are ordered one way or the other |
| Agent.DownloadKeys | yeet-agent/src/agent.rs:205-208 | The list for nix-store is strictly ascending and holds exactly the trusted keys plus the update's public key |
| Decimal.ParseU32 | yeet-agent/src/agent.rs:302-304 | After an optional leading '+', a name is accepted iff it is a non-empty run of digits whose value fits in 32 bits, and the value returned is the number the digits denote; any other non-digit rejects it |
| Decimal.ParseExamples | yeet-agent/src/agent.rs:302-304 | "007" parses as 7 and "+3" as 3; "+" and "-1" are rejected |
| Decimal.ParseRejectsOverflow | yeet-agent/src/agent.rs:302-304 | A number past u32::MAX is rejected even in canonical form |
| Decimal.ToDecimal | yeet-agent/src/agent.rs:306 | The rendering is a non-empty run of digits without a leading zero that denotes the number |
| Decimal.RenderInjective | yeet-agent/src/agent.rs:306 | Distinct generation numbers get distinct directory names |
| Agent.NextGeneration | yeet-agent/src/agent.rs:294-306 | The next generation number fits in 32 bits; its values are given by GenerationNumbering |
| Agent.GenerationNumbering | yeet-agent/src/agent.rs:294-306 | With no link the number is 0; a link whose name parses as a u32 n (any form parse accepts) gives n + 1, in particular the canonical name of n; a name that does not parse gives 0 |
| Agent.NonCanonicalLinkNames | yeet-agent/src/agent.rs:302-303 | Links named "007" and "+7" both lead to generation 8 |
| Agent.FetchAll | yeet-agent/src/agent.rs:284-292 | Succeeds iff the server returns every declared secret, and then holds exactly those, as served |
| Agent.GetSecrets | yeet-agent/src/agent.rs:266-325 | Succeeds iff there is no manifest, or every declared secret is served and the generation is written; with no manifest nothing changes; failures before creation change nothing; success links to a new directory; any failure keeps the link and adds no directory |
| Agent.MissingSecretChangesNothing | yeet-agent/src/agent.rs:284-292 | A declared secret the server withholds stops the fetch before any directory or link changes |
| Agent.FailedGenerationIsRemoved | yeet-agent/src/agent.rs:309-318 | A failed write removes the new generation's directory, keeps the link, and reports failure |
| Agent.GenerationsCountUp | yeet-agent/src/agent.rs:294-322 | Each successful fetch moves the link to the next number, so the new generation never reuses the linked one |
| Agent.KeepOnly | yeet-agent/src/agent.rs:166-172 | What a commit leaves: at most the kept name, and it iff it was there |
| Agent.RemoveAllDirsUnless | yeet-agent/src/agent.rs:178-191 | The entry-by-entry removal leaves exactly KeepOnly(dirs, keep), the set Update commits to |
| Agent.Update | yeet-agent/src/agent.rs:147-176 | Failing before the fetch changes nothing; a failing get_secrets ends update with its own failure and state; success needs a readable config, a realised target, a readable active version, and either a switch or a successful activation |
| Agent.UpdateStopsOnMissingSecret | yeet-agent/src/agent.rs:148-150 | A declared secret the server withholds ends update with SecretNotFound and the host state untouched |
| Agent.UnknownActiveVersionSkipsCleanup | yeet-agent/src/agent.rs:153-155 | When the active system cannot be read, update fails with the new generation linked and no directory removed: neither rollback nor commit |
| Agent.CommitKeepsOnlyNewGeneration | yeet-agent/src/agent.rs:166-172 | When the switch took effect, the link names the new generation and it is the only entry left in secret.d |
| Agent.RollbackRestoresPreviousGeneration | yeet-agent/src/agent.rs:154-165 | When it did not, the previous link is restored if there was one; only the new directory is deleted; the result is an error iff activation reported one |
| Agent.RollbackWithoutPriorLinkDangles | yeet-agent/src/agent.rs:156-164 | With no earlier link, a rollback leaves the link naming generation 0, which it has just deleted |
| Agent.RollbackDeletesCurrentGeneration | yeet-agent/src/agent.rs:149-165 | With no yeet-secrets.json, a failed switch deletes the directory of the current generation while the link keeps naming it |
| Agent.NoManifestUpdate | yeet-agent/src/agent.rs:153-175 | Without yeet-secrets.json: an unreadable active system changes nothing and fails; a commit succeeds keeping only the linked generation; a rollback keeps the link, deletes the linked directory, and succeeds iff activation did and that directory still existed |
| Agent.RepeatedRollbackFails | yeet-agent/src/agent.rs:161-163 | After a no-manifest rollback has deleted the current generation, the next one fails at remove_dir_all even when activation succeeds |
| Agent.AgentActionStep | yeet-agent/src/agent.rs:121-130 | Only SwitchTo runs update; Nothing and Detach change nothing and succeed |

## Left out

- Age encryption and decryption are not modelled; their behaviour comes in as the `Age` parameter. `SecretStore.Sound` is the one property assumed of them, and only `CreateAndRetrieve` uses it.
- UUID generation is not modelled. `CreateTag` takes the drawn tag as a parameter and requires it to be unregistered.
- Collisions of random UUIDs are not modelled.
- `PolicyStore` serialisation and the generic `Identity` bounds are not modelled; `Identity` is a type parameter with equality.
- `set_access_for` and `get_acl_by_secret` are test-only helpers. The model uses `AclOf` in their place and has no setter.
- HashMap iteration order is not modelled. Maps are Dafny maps, `list_secrets` yields some order, and the manifest is a set of names.
- Agent.NextGeneration: the model requires that the linked name does not parse as `u32::MAX`. The source's `i + 1` would overflow there: it panics in a debug build and wraps to 0 in a release build.
- Agent.Update: failures of `symlink`, of `notify_all`, and of `remove_dir_all` during rollback on a directory that still exists are not modelled; those calls are taken to succeed. A rollback whose directory is already gone is modelled: it fails with `RemoveFailed`. The ignored `remove_dir_all` failures in `remove_all_dirs_unless` and after a failed generation write are taken to succeed too.
- Agent.GetSecrets: the contents of a generation (file names, modes, owners, secret bytes) are not modelled. Creating it is one success flag. A secret name without a file name, an existing file, or a bad mode or owner all count as a failed write.
- Agent.GetSecrets: the link is assumed to name a directory inside `/etc/yeet/secret.d`, which is where the agent itself points it. `remove_all_dirs_unless` works on the link target's parent, which is that directory.
- The netrc fetch and temp file in `download` are not modelled as separate steps. A failed netrc fetch is only logged. A failure of `NamedTempFile::new`, `write_all` or `flush` aborts `download`; the model counts it as `realised = false`.
- Running `nix-store`, `nix-env`, `switch-to-configuration` and `get_active_version` is not modelled: processes, reduced to the `realised`, `activateOk`, `activeKnown` and `switched` flags. A failing `get_active_version` is the `activeKnown = false` case.
- The retry loop, verification polling, sleeps and the varlink daemon in `agent`/`agent_loop` are not modelled: concurrency and network plumbing.
- `switch_to` is not modelled: process invocation only.
- Server routing and persistence (`yeet-server/src/main.rs`, `yeet-server/src/routes/secret.rs`) and the CLI (`yeet-agent/src/cli/`) are not modelled: I/O wiring around the modelled stores.
- SecretStore.GetSecretFor: `Age.encrypt` is a function, so sealing one plaintext twice for one recipient gives the same bytes, while `age::encrypt` is randomised. `AddAccessServes` and `RenameSecretServesUnderNewName` compare exact ciphertexts only because of this; for the real library they hold up to decryption.
- Agent.TrustedPublicKeys: `.map_while(Result::ok)` ends the line sequence at the first read error. The model takes the lines read before it as given.
- Ordering.Less: the order compares code points. For UTF-8 strings this is the byte order that `Ord for String` uses.
