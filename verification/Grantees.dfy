/** Replaying an access-control log: who holds a role on an app in the end? */
module Grantees {
  import opened Sequences
  import opened Text

  /** An event of the ACL contract; only SetPermission events carry these arguments. */
  datatype AclEvent = SetPermission(app: string, role: string, entity: string, allowed: bool) | OtherEvent

  function NormalizeBytes(s: string): string {
    Lower(s)
  }

  /** The filter: the app is compared up to letter case, the role's lower-case form with
      `permission` as the caller gives it. */
  predicate Concerns(evt: AclEvent, appAddress: string, permission: string) {
    && evt.SetPermission?
    && NormalizeBytes(evt.app) == NormalizeBytes(appAddress)
    && NormalizeBytes(evt.role) == permission
  }

  /** Does the last concerning event for this (lower-case) entity allow it? */
  predicate LastAllows(evts: seq<AclEvent>, appAddress: string, permission: string, entity: string) {
    if evts == [] then false
    else
      var last := evts[|evts| - 1];
      if Concerns(last, appAddress, permission) && NormalizeBytes(last.entity) == entity then last.allowed
      else LastAllows(evts[..|evts| - 1], appAddress, permission, entity)
  }

  function Filtered(evts: seq<AclEvent>, appAddress: string, permission: string): (kept: seq<AclEvent>)
    ensures forall e | e in kept :: Concerns(e, appAddress, permission)
  {
    if evts == [] then []
    else
      var before := Filtered(evts[..|evts| - 1], appAddress, permission);
      if Concerns(evts[|evts| - 1], appAddress, permission) then before + [evts[|evts| - 1]] else before
  }

  lemma {:induction false} FilteredDecides(evts: seq<AclEvent>, appAddress: string, permission: string, entity: string)
    ensures LastAllows(Filtered(evts, appAddress, permission), appAddress, permission, entity)
            == LastAllows(evts, appAddress, permission, entity)
  {
    if evts != [] {
      var before, last := evts[..|evts| - 1], evts[|evts| - 1];
      FilteredDecides(before, appAddress, permission, entity);
      var kept := Filtered(before, appAddress, permission);
      assert (kept + [last])[..|kept|] == kept;
    }
  }

  /** The dictionary is a map together with the order in which its keys were first set. */
  method GetAllGrantees(appAddress: string, permission: string, allAclEvents: seq<AclEvent>)
    returns (grantees: seq<string>)
    ensures NoDuplicates(grantees)
    ensures forall entity :: entity in grantees <==> LastAllows(allAclEvents, appAddress, permission, entity)
  {
    var setPermissionEvts := Filtered(allAclEvents, appAddress, permission);
    var finalPermissionsByEntity: map<string, bool> := map[];
    var keys: seq<string> := [];
    for i := 0 to |setPermissionEvts|
      invariant NoDuplicates(keys) && forall k :: k in keys <==> k in finalPermissionsByEntity
      invariant forall k :: (k in finalPermissionsByEntity && finalPermissionsByEntity[k])
                            <==> LastAllows(setPermissionEvts[..i], appAddress, permission, k)
    {
      var evt := setPermissionEvts[i];
      assert evt in setPermissionEvts && setPermissionEvts[..i + 1] == setPermissionEvts[..i] + [evt];
      forall k {
        AppendingOneEvent(setPermissionEvts[..i], evt, appAddress, permission, k);
      }
      var entity := NormalizeBytes(evt.entity);
      if entity !in finalPermissionsByEntity {
        keys := keys + [entity];
      }
      finalPermissionsByEntity := finalPermissionsByEntity[entity := evt.allowed];
    }
    grantees := [];
    for i := 0 to |keys|
      invariant NoDuplicates(grantees)
      invariant forall k :: k in grantees <==> k in keys[..i] && finalPermissionsByEntity[k]
    {
      if finalPermissionsByEntity[keys[i]] {
        grantees := grantees + [keys[i]];
      }
    }
    assert keys[..|keys|] == keys && setPermissionEvts[..|setPermissionEvts|] == setPermissionEvts;
    forall entity
      ensures LastAllows(setPermissionEvts, appAddress, permission, entity)
              == LastAllows(allAclEvents, appAddress, permission, entity)
    {
      FilteredDecides(allAclEvents, appAddress, permission, entity);
    }
  }

  /** An entity holds the role exactly if some concerning event allows it and no later concerning
      event is about it. */
  lemma {:induction false} LastAllowsMeans(evts: seq<AclEvent>, appAddress: string, permission: string, entity: string)
    ensures LastAllows(evts, appAddress, permission, entity)
            <==> exists i | 0 <= i < |evts| :: IsLastFor(evts, i, appAddress, permission, entity) && evts[i].allowed
  {
    if evts != [] {
      var before, last := evts[..|evts| - 1], |evts| - 1;
      LastAllowsMeans(before, appAddress, permission, entity);
      if Concerns(evts[last], appAddress, permission) && NormalizeBytes(evts[last].entity) == entity {
        assert IsLastFor(evts, last, appAddress, permission, entity);
      } else {
        assert forall i | 0 <= i < last ::
            IsLastFor(evts, i, appAddress, permission, entity) == IsLastFor(before, i, appAddress, permission, entity);
      }
    }
  }

  ghost predicate IsLastFor(evts: seq<AclEvent>, i: nat, appAddress: string, permission: string, entity: string)
    requires i < |evts|
  {
    && IsFor(evts[i], appAddress, permission, entity)
    && forall j | i < j < |evts| :: !IsFor(evts[j], appAddress, permission, entity)
  }

  predicate IsFor(evt: AclEvent, appAddress: string, permission: string, entity: string) {
    Concerns(evt, appAddress, permission) && NormalizeBytes(evt.entity) == entity
  }

  /** One more event changes the membership of its own entity at most, and of none if it is about
      another app or role. */
  lemma {:induction false} AppendingOneEvent(evts: seq<AclEvent>, evt: AclEvent, appAddress: string, permission: string,
                                             entity: string)
    ensures LastAllows(evts + [evt], appAddress, permission, entity)
            == if IsFor(evt, appAddress, permission, entity) then evt.allowed
               else LastAllows(evts, appAddress, permission, entity)
  {
    assert (evts + [evt])[..|evts|] == evts;
  }

  // ---------------------------------------------------------------------------------------------
  // The case of the permission.

  /** Up to letter case, the event is about this entity, this app and this role. */
  predicate IsAbout(evt: AclEvent, app: string, role: string, entity: string) {
    && evt.SetPermission?
    && SameText(evt.app, app)
    && SameText(evt.role, role)
    && SameText(evt.entity, entity)
  }

  /** Both callers pass the role in lower case. For them the result is right for every role: in
      lower case, and up to letter case the entities that the last event about them allows. */
  lemma {:induction false} GranteesOfRole(evts: seq<AclEvent>, app: string, role: string, entity: string)
    ensures LastAllows(evts, app, NormalizeBytes(role), entity)
            <==> && NoCapitals(entity)
                 && exists i | 0 <= i < |evts| ::
                      && IsAbout(evts[i], app, role, entity)
                      && evts[i].allowed
                      && forall j | i < j < |evts| :: !IsAbout(evts[j], app, role, entity)
  {
    LastAllowsMeans(evts, app, NormalizeBytes(role), entity);
    forall j | 0 <= j < |evts|
      ensures IsFor(evts[j], app, NormalizeBytes(role), entity)
              <==> NoCapitals(entity) && IsAbout(evts[j], app, role, entity)
    {
      ForMeansAbout(evts[j], app, role, entity);
    }
    forall i | 0 <= i < |evts|
      ensures IsLastFor(evts, i, app, NormalizeBytes(role), entity)
              <==> && NoCapitals(entity)
                   && IsAbout(evts[i], app, role, entity)
                   && forall j | i < j < |evts| :: !IsAbout(evts[j], app, role, entity)
    {
      assert forall j | i <= j < |evts| ::
          IsFor(evts[j], app, NormalizeBytes(role), entity)
          == (NoCapitals(entity) && IsAbout(evts[j], app, role, entity));
    }
  }

  lemma {:induction false} ForMeansAbout(evt: AclEvent, app: string, role: string, entity: string)
    ensures IsFor(evt, app, NormalizeBytes(role), entity)
            <==> NoCapitals(entity) && IsAbout(evt, app, role, entity)
  {
    if evt.SetPermission? {
      LowerEqualIff(evt.app, app);
      LowerEqualIff(evt.role, role);
      LowerEqualIff(evt.entity, entity);
      LowerFixedIff(entity);
      LowerMeans(evt.entity);
    }
  }

  /** A permission that is not in lower case has no grantees, whatever the log says. */
  lemma {:induction false} UnnormalizedPermissionHasNoGrantees(evts: seq<AclEvent>, appAddress: string,
                                                               permission: string, entity: string)
    requires Lower(permission) != permission
    ensures !LastAllows(evts, appAddress, permission, entity)
  {
    if evts != [] {
      if evts[|evts| - 1].SetPermission? {
        LowerTwice(evts[|evts| - 1].role);
      }
      UnnormalizedPermissionHasNoGrantees(evts[..|evts| - 1], appAddress, permission, entity);
    }
  }

  /** Taken alone, the function gives the role's grantees for exactly these permissions. */
  lemma {:induction false} PermissionMustBeLowerCase(evts: seq<AclEvent>, app: string, permission: string)
    ensures (forall e :: LastAllows(evts, app, permission, e) == LastAllows(evts, app, Lower(permission), e))
            <==> permission == Lower(permission) || forall e :: !LastAllows(evts, app, Lower(permission), e)
  {
    if permission != Lower(permission) {
      forall e ensures !LastAllows(evts, app, permission, e) {
        UnnormalizedPermissionHasNoGrantees(evts, app, permission, e);
      }
    }
  }

  /** One event is enough to see it. */
  lemma {:induction false} UpperCasePermissionLosesGrantee()
    ensures var evts := [SetPermission("0x1", "0xa", "0x2", true)];
            LastAllows(evts, "0x1", "0xa", "0x2") && !LastAllows(evts, "0x1", "0xA", "0x2")
  {
    var evts := [SetPermission("0x1", "0xa", "0x2", true)];
    UnnormalizedPermissionHasNoGrantees(evts, "0x1", "0xA", "0x2");
  }
}
