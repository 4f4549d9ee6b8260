/** The tag-based policy store of `yeet-api/src/auth.rs`.

    A store keeps the registry of valid tags and, for every
    `(identity, action)` pair, the set of tags that identity may act on.
    A check succeeds when the resource carries ANY of the stored tags.
    There is no wildcard tag, no wildcard action and no union of several
    policies: one key holds one tag set, and setting it replaces it. */
module Auth {
  import opened Wrappers

  /** Tags are random version-4 UUIDs; the model only needs equality. */
  type Tag = nat

  type TagSet = set<Tag>

  datatype HostAction = Rename | Remove | Update | Accept | Attach | DetachPermission

  datatype SettingsAction = DetachGlobal

  datatype SecretAction = CreateOrUpdate | Rename | Remove | Acl | ListSecrets

  datatype StatusAction = ListHosts | ListHostnameByKey

  /** The two-level action enum: a resource kind and an operation on it. */
  datatype Action =
    | Host(host: HostAction)
    | Settings(settings: SettingsAction)
    | Secret(secret: SecretAction)
    | Status(status: StatusAction)

  datatype PolicyStore<Id(==)> = PolicyStore(tags: TagSet, policies: map<(Id, Action), TagSet>)

  /** The `Default` store: no tags, no policies. */
  function Empty<Id(==)>(): (s: PolicyStore<Id>)
    ensures s.tags == {} && s.policies == map[]
  {
    PolicyStore({}, map[])
  }

  /** `create_tag`: registers the freshly drawn UUID `drawn` and returns it. */
  function CreateTag<Id(==)>(s: PolicyStore<Id>, drawn: Tag): (r: (PolicyStore<Id>, Tag))
    requires drawn !in s.tags
    ensures r.1 == drawn
    ensures r.0.tags == s.tags + {drawn} && |r.0.tags| == |s.tags| + 1
    ensures r.0.policies == s.policies
  {
    (s.(tags := s.tags + {drawn}), drawn)
  }

  /** `delete_tag`: drops `t` from the registry and from every policy. */
  function DeleteTag<Id(==)>(s: PolicyStore<Id>, t: Tag): (r: PolicyStore<Id>)
    ensures r.tags == s.tags - {t}
    ensures r.policies.Keys == s.policies.Keys
    ensures forall k :: k in r.policies ==> t !in r.policies[k]
    ensures forall k, u :: k in s.policies && u != t ==> (u in r.policies[k] <==> u in s.policies[k])
  {
    PolicyStore(s.tags - {t}, map k | k in s.policies :: s.policies[k] - {t})
  }

  /** `set_policy`: `owner` may perform `action` on resources carrying any of `ts`. */
  function SetPolicy<Id(==,!new)>(s: PolicyStore<Id>, owner: Id, action: Action, ts: TagSet): (r: PolicyStore<Id>)
    ensures r.tags == s.tags
    ensures r.policies.Keys == s.policies.Keys + {(owner, action)}
    ensures GetTags(r, owner, action) == ts
    ensures forall o, a :: (o, a) != (owner, action) ==> GetTags(r, o, a) == GetTags(s, o, a)
  {
    s.(policies := s.policies[(owner, action) := ts])
  }

  /** `delete_policy`: removes one key and returns the set it held, if any. */
  function DeletePolicy<Id(==,!new)>(s: PolicyStore<Id>, owner: Id, action: Action): (r: (PolicyStore<Id>, Option<TagSet>))
    ensures r.0.tags == s.tags
    ensures r.0.policies.Keys == s.policies.Keys - {(owner, action)}
    ensures (owner, action) in s.policies <==> r.1.Some?
    ensures r.1.Some? ==> r.1.value == GetTags(s, owner, action)
    ensures GetTags(r.0, owner, action) == {}
    ensures forall o, a :: (o, a) != (owner, action) ==> GetTags(r.0, o, a) == GetTags(s, o, a)
  {
    var key := (owner, action);
    var previous := if key in s.policies then Some(s.policies[key]) else None;
    (s.(policies := map k | k in s.policies && k != key :: s.policies[k]), previous)
  }

  /** `get_tags`: the stored tag set, or the empty set when there is no policy. */
  function GetTags<Id(==)>(s: PolicyStore<Id>, owner: Id, action: Action): (r: TagSet)
    ensures (owner, action) !in s.policies ==> r == {}
    ensures (owner, action) in s.policies ==> r == s.policies[(owner, action)]
  {
    if (owner, action) in s.policies then s.policies[(owner, action)] else {}
  }

  /** `check_permission`: the size of the intersection is positive. */
  function CheckPermission<Id(==)>(s: PolicyStore<Id>, owner: Id, action: Action, ts: TagSet): (r: bool)
    ensures r <==> exists t :: t in GetTags(s, owner, action) && t in ts
  {
    SharedTag(GetTags(s, owner, action), ts);
    |GetTags(s, owner, action) * ts| > 0
  }

  /** An intersection has positive size exactly when some element lies in both sets. */
  lemma SharedTag(granted: TagSet, carried: TagSet)
    ensures |granted * carried| > 0 <==> exists t :: t in granted && t in carried
  {
    if |granted * carried| > 0 {
      var t :| t in granted * carried;
    } else {
      assert forall t :: t in granted && t in carried ==> t in granted * carried;
    }
  }

  /** Without a policy for `(owner, action)` no resource is accessible. */
  lemma NoPolicyDeniesEverything<Id>(s: PolicyStore<Id>, owner: Id, action: Action, ts: TagSet)
    requires (owner, action) !in s.policies
    ensures GetTags(s, owner, action) == {}
    ensures !CheckPermission(s, owner, action, ts)
  {
  }

  /** Right after `set_policy(o, a, S)` the check for `(o, a)` is exactly "S meets T";
      every other action keeps the answer it had. */
  lemma SetPolicyDecides<Id(!new)>(s: PolicyStore<Id>, owner: Id, action: Action, granted: TagSet, other: Action, ts: TagSet)
    ensures CheckPermission(SetPolicy(s, owner, action, granted), owner, action, ts) <==> granted * ts != {}
    ensures other != action ==>
      CheckPermission(SetPolicy(s, owner, action, granted), owner, other, ts) == CheckPermission(s, owner, other, ts)
  {
    var r := SetPolicy(s, owner, action, granted);
    if granted * ts != {} {
      var t :| t in granted * ts;
      assert t in GetTags(r, owner, action) && t in ts;
    }
  }

  /** The documented example: a policy on `Host::Rename` grants renaming a host
      carrying the tag and does not grant `Host::Remove` on it. */
  lemma ActionsAreIsolated<Id(!new)>(owner: Id, drawn: Tag)
    ensures var (s0, tag) := CreateTag(Empty<Id>(), drawn);
            var s1 := SetPolicy(s0, owner, Host(HostAction.Rename), {tag});
            CheckPermission(s1, owner, Host(HostAction.Rename), {tag})
            && !CheckPermission(s1, owner, Host(HostAction.Remove), {tag})
  {
    var (s0, tag) := CreateTag(Empty<Id>(), drawn);
    var s1 := SetPolicy(s0, owner, Host(HostAction.Rename), {tag});
    assert tag in GetTags(s1, owner, Host(HostAction.Rename));
  }

  /** After `delete_policy` the check fails for every resource, and nothing else moves. */
  lemma DeletePolicyRevokes<Id(!new)>(s: PolicyStore<Id>, owner: Id, action: Action, ts: TagSet, o: Id, a: Action)
    ensures !CheckPermission(DeletePolicy(s, owner, action).0, owner, action, ts)
    ensures (o, a) != (owner, action) ==>
      CheckPermission(DeletePolicy(s, owner, action).0, o, a, ts) == CheckPermission(s, o, a, ts)
  {
  }

  /** After `delete_tag(t)` a check succeeds exactly when it would have succeeded
      for the resource's other tags: `t` no longer grants anything. */
  lemma DeleteTagRevokes<Id>(s: PolicyStore<Id>, t: Tag, owner: Id, action: Action, ts: TagSet)
    ensures CheckPermission(DeleteTag(s, t), owner, action, ts) == CheckPermission(s, owner, action, ts - {t})
    ensures !CheckPermission(DeleteTag(s, t), owner, action, {t})
  {
    var r := DeleteTag(s, t);
    if CheckPermission(r, owner, action, ts) {
      var u :| u in GetTags(r, owner, action) && u in ts;
      assert u in GetTags(s, owner, action) && u in ts - {t};
    }
    if CheckPermission(s, owner, action, ts - {t}) {
      var u :| u in GetTags(s, owner, action) && u in ts - {t};
      assert u in GetTags(r, owner, action);
    }
  }

  /** `create_tag` changes no decision. */
  lemma CreateTagGrantsNothing<Id>(s: PolicyStore<Id>, drawn: Tag, owner: Id, action: Action, ts: TagSet)
    requires drawn !in s.tags
    ensures CheckPermission(CreateTag(s, drawn).0, owner, action, ts) == CheckPermission(s, owner, action, ts)
  {
  }

  /** The `happy_path`, `delete_tag` and `delete_policy` unit tests in one run:
      granted after `set_policy`, revoked by either deletion. */
  lemma GrantThenRevokeScenario<Id(!new)>(owner: Id, drawn: Tag)
    ensures var (s0, tag) := CreateTag(Empty<Id>(), drawn);
            var s1 := SetPolicy(s0, owner, Host(HostAction.Rename), {tag});
            && CheckPermission(s1, owner, Host(HostAction.Rename), {tag})
            && !CheckPermission(DeleteTag(s1, tag), owner, Host(HostAction.Rename), {tag})
            && !CheckPermission(DeletePolicy(s1, owner, Host(HostAction.Rename)).0, owner, Host(HostAction.Rename), {tag})
  {
    var (s0, tag) := CreateTag(Empty<Id>(), drawn);
    var s1 := SetPolicy(s0, owner, Host(HostAction.Rename), {tag});
    assert tag in GetTags(s1, owner, Host(HostAction.Rename));
    DeleteTagRevokes(s1, tag, owner, Host(HostAction.Rename), {tag});
  }
}
