/** Case collisions among extended attribute names and the validation of a batch of attribute
    mutations (src/worker/apfs_winfs_worker.cpp). `fold` is Unicode case folding. */
module AttributePolicy {
  import opened Common

  datatype PolicyMutation = PolicyMutation(name: string, remove: bool, aliased: bool)

  /** Two distinct names share this case key. */
  ghost predicate Collides(names: seq<string>, fold: string -> string, key: string) {
    exists a, b :: a in names && b in names && a != b && fold(a) == key && fold(b) == key
  }

  method CollisionKeys(names: seq<string>, fold: string -> string) returns (collisions: set<string>)
    ensures forall key :: key in collisions <==> Collides(names, fold, key)
    ensures forall key :: key in collisions <==>
              exists a, b :: a in names && b in names && a != b && fold(a) == key && fold(b) == key
  {
    var firstNameByKey: map<string, string> := map[];
    collisions := {};
    var i := 0;
    while i < |names|
      invariant 0 <= i <= |names|
      invariant forall n :: n in names[..i] ==> fold(n) in firstNameByKey
      invariant forall k :: k in firstNameByKey ==> firstNameByKey[k] in names[..i] && fold(firstNameByKey[k]) == k
      invariant forall k :: k in collisions <==> exists n :: n in names[..i] && fold(n) == k && n != firstNameByKey[k]
    {
      var name := names[i];
      var key := fold(name);
      ghost var before := names[..i];
      assert names[..i + 1] == before + [name];
      if key !in firstNameByKey {
        firstNameByKey := firstNameByKey[key := name];
      } else if firstNameByKey[key] != name {
        collisions := collisions + {key};
      }
      i := i + 1;
    }
    assert names[..i] == names;
    forall key
      ensures key in collisions <==> Collides(names, fold, key)
    {
      if key in collisions {
        var n :| n in names && fold(n) == key && n != firstNameByKey[key];
        assert firstNameByKey[key] in names;
      }
      if Collides(names, fold, key) {
        var a, b :| a in names && b in names && a != b && fold(a) == key && fold(b) == key;
        assert a != firstNameByKey[key] || b != firstNameByKey[key];
      }
    }
  }

  ghost predicate OtherCaseExists(names: seq<string>, fold: string -> string, name: string) {
    exists n :: n in names && n != name && fold(n) == fold(name)
  }

  function Without(names: seq<string>, name: string): (rest: seq<string>)
    ensures forall n :: n in rest <==> n in names && n != name
  {
    if names == [] then []
    else (if names[0] == name then [] else [names[0]]) + Without(names[1..], name)
  }

  /** The names an applied mutation leaves. */
  function After(names: seq<string>, m: PolicyMutation): seq<string> {
    if m.remove then Without(names, m.name)
    else if m.name in names then names
    else names + [m.name]
  }

  function AfterAll(names: seq<string>, ms: seq<PolicyMutation>): seq<string>
    decreases |ms|
  {
    if ms == [] then names else AfterAll(After(names, ms[0]), ms[1..])
  }

  /** At its turn a mutation may not meet another spelling of its name, unless the exact spelling
      exists too and was addressed by its alias. */
  ghost predicate TurnAccepted(names: seq<string>, fold: string -> string, m: PolicyMutation) {
    OtherCaseExists(names, fold, m.name) ==> m.name in names && m.aliased
  }

  ghost predicate BatchAccepted(names: seq<string>, fold: string -> string, ms: seq<PolicyMutation>) {
    forall k :: 0 <= k < |ms| ==> TurnAccepted(AfterAll(names, ms[..k]), fold, ms[k])
  }

  method ValidateMutations(initial: seq<string>, fold: string -> string, mutations: seq<PolicyMutation>)
    returns (accepted: bool)
    ensures accepted <==> BatchAccepted(initial, fold, mutations)
    ensures accepted <==> forall k {:trigger mutations[k]} :: 0 <= k < |mutations| ==>
              var m, names := mutations[k], AfterAll(initial, mutations[..k]);
              (exists n :: n in names && n != m.name && fold(n) == fold(m.name)) ==> m.name in names && m.aliased
  {
    var names := initial;
    var i := 0;
    while i < |mutations|
      invariant 0 <= i <= |mutations|
      invariant names == AfterAll(initial, mutations[..i])
      invariant forall k :: 0 <= k < i ==> TurnAccepted(AfterAll(initial, mutations[..k]), fold, mutations[k])
    {
      var mutation := mutations[i];
      var exactExists := mutation.name in names;
      var differentCaseExists := exists n :: n in names && n != mutation.name && fold(n) == fold(mutation.name);
      if differentCaseExists && (!exactExists || !mutation.aliased) {
        assert !TurnAccepted(AfterAll(initial, mutations[..i]), fold, mutations[i]);
        return false;
      }
      AfterOneMore(initial, mutations, i);
      if mutation.remove {
        names := Without(names, mutation.name);
      } else if !exactExists {
        names := names + [mutation.name];
      }
      i := i + 1;
    }
    return true;
  }

  /** What the names are at each turn: a name that was removed is gone, one that was set is there, and all
      others are as before. */
  lemma NamesAtTurn(names: seq<string>, ms: seq<PolicyMutation>, k: nat)
    requires k < |ms|
    ensures AfterAll(names, ms[..0]) == names
    ensures ms[k].name in AfterAll(names, ms[..k + 1]) <==> !ms[k].remove
    ensures forall n :: n != ms[k].name ==> (n in AfterAll(names, ms[..k + 1]) <==> n in AfterAll(names, ms[..k]))
  {
    AfterOneMore(names, ms, k);
    assert ms[..0] == [];
  }

  lemma {:induction false} AfterOneMore(names: seq<string>, ms: seq<PolicyMutation>, k: nat)
    requires k < |ms|
    ensures AfterAll(names, ms[..k + 1]) == After(AfterAll(names, ms[..k]), ms[k])
    decreases k
  {
    if k == 0 {
      assert ms[..1] == [ms[0]];
      assert AfterAll(names, [ms[0]]) == AfterAll(After(names, ms[0]), []);
    } else {
      AfterOneMore(After(names, ms[0]), ms[1..], k - 1);
      assert ms[..k + 1][1..] == ms[1..][..k] && ms[..k][1..] == ms[1..][..k - 1];
    }
  }

  /** Two spellings of one name that an accepted mutation leaves were both there before it. */
  lemma TwinWasPresent(before: seq<string>, fold: string -> string, m: PolicyMutation, a: string, b: string)
    requires TurnAccepted(before, fold, m)
    requires a in before || a == m.name
    requires b in before || b == m.name
    requires a != b && fold(a) == fold(b)
    ensures a in before
  {
    if a == m.name && b in before {
      assert OtherCaseExists(before, fold, m.name);
    }
  }

  /** An accepted batch creates no pair of names that are equal but for case: at any point of it, the
      two names of such a pair were both there before the batch. */
  lemma {:induction false} AcceptedBatchAddsNoCollision(names: seq<string>, fold: string -> string,
                                                        ms: seq<PolicyMutation>, k: nat, a: string, b: string)
    requires BatchAccepted(names, fold, ms) && k <= |ms|
    requires a in AfterAll(names, ms[..k]) && b in AfterAll(names, ms[..k]) && a != b && fold(a) == fold(b)
    ensures a in names && b in names
  {
    if k != 0 {
      var before, m := AfterAll(names, ms[..k - 1]), ms[k - 1];
      AfterOneMore(names, ms, k - 1);
      assert TurnAccepted(before, fold, m);
      TwinWasPresent(before, fold, m, a, b);
      TwinWasPresent(before, fold, m, b, a);
      AcceptedBatchAddsNoCollision(names, fold, ms, k - 1, a, b);
    }
  }

  ghost predicate CollisionFree(names: seq<string>, fold: string -> string) {
    forall key :: !Collides(names, fold, key)
  }

  /** From names without collisions a batch is accepted exactly when no mutation, at its turn,
      names another spelling of a present name. */
  lemma AcceptedIffNoTurnCollides(names: seq<string>, fold: string -> string, ms: seq<PolicyMutation>)
    requires CollisionFree(names, fold)
    ensures BatchAccepted(names, fold, ms) <==>
            forall k :: 0 <= k < |ms| ==> CollisionFree(AfterAll(names, ms[..k]) + [ms[k].name], fold)
  {
    forall k | 0 <= k < |ms| && CollisionFree(AfterAll(names, ms[..k]) + [ms[k].name], fold)
      ensures TurnAccepted(AfterAll(names, ms[..k]), fold, ms[k])
    {
      var before := AfterAll(names, ms[..k]);
      if OtherCaseExists(before, fold, ms[k].name) {
        var n :| n in before && n != ms[k].name && fold(n) == fold(ms[k].name);
        assert Collides(before + [ms[k].name], fold, fold(n));
      }
    }
    if BatchAccepted(names, fold, ms) {
      forall k | 0 <= k < |ms|
        ensures CollisionFree(AfterAll(names, ms[..k]) + [ms[k].name], fold)
      {
        AcceptedTurnCollisionFree(names, fold, ms, k);
      }
    }
  }

  lemma AcceptedTurnCollisionFree(names: seq<string>, fold: string -> string, ms: seq<PolicyMutation>, k: nat)
    requires CollisionFree(names, fold) && BatchAccepted(names, fold, ms) && k < |ms|
    ensures CollisionFree(AfterAll(names, ms[..k]) + [ms[k].name], fold)
  {
    var before, name := AfterAll(names, ms[..k]), ms[k].name;
    forall key
      ensures !Collides(before + [name], fold, key)
    {
      if Collides(before + [name], fold, key) {
        var a, b :| a in before + [name] && b in before + [name] && a != b && fold(a) == key && fold(b) == key;
        TwinWasPresent(before, fold, ms[k], a, b);
        TwinWasPresent(before, fold, ms[k], b, a);
        assert !Collides(names, fold, key);
        AcceptedBatchAddsNoCollision(names, fold, ms, k, a, b);
      }
    }
  }

  /** Setting names that all exist changes no name, so every turn sees the starting names. */
  lemma {:induction false} SettingExisting(names: seq<string>, fold: string -> string, ms: seq<PolicyMutation>)
    requires forall i :: 0 <= i < |ms| ==> ms[i].name in names && !ms[i].remove
    ensures BatchAccepted(names, fold, ms) <==> forall i :: 0 <= i < |ms| ==> TurnAccepted(names, fold, ms[i])
  {
    forall k | 0 <= k <= |ms|
      ensures AfterAll(names, ms[..k]) == names
    {
      NamesStay(names, ms[..k]);
    }
  }

  lemma {:induction false} NamesStay(names: seq<string>, ms: seq<PolicyMutation>)
    requires forall i :: 0 <= i < |ms| ==> ms[i].name in names && !ms[i].remove
    ensures AfterAll(names, ms) == names
    decreases |ms|
  {
    if ms != [] {
      NamesStay(names, ms[1..]);
    }
  }
}
