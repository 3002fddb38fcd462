// The per-user table of scans in flight (admission.c): 64 slots searched in place,
// seen from outside as a map from user id to number of scans.
module SubmitterTable {
  const TABLE_SIZE: int := 64
  const MAX_PER_USER: int := 2

  type Usage = map<nat, nat>

  function Held(m: Usage, user: nat): nat {
    if user in m then m[user] else 0
  }

  predicate MayAcquire(m: Usage, user: nat) {
    user != 0 && Held(m, user) < MAX_PER_USER && (user in m || |m| < TABLE_SIZE)
  }

  function Acquired(m: Usage, user: nat): Usage {
    if MayAcquire(m, user) then m[user := Held(m, user) + 1] else m
  }

  function Released(m: Usage, user: nat): Usage {
    if Held(m, user) >= 2 then m[user := m[user] - 1] else m - {user}
  }

  ghost predicate Sound(m: Usage) {
    && |m| <= TABLE_SIZE
    && forall u :: u in m ==> u != 0 && 1 <= m[u] <= MAX_PER_USER
  }

  /** A release undoes an acquire, and both touch nobody else. */
  lemma ReleaseUndoesAcquire(m: Usage, user: nat)
    requires Sound(m) && MayAcquire(m, user)
    ensures Sound(Acquired(m, user)) && Released(Acquired(m, user), user) == m
    ensures forall u :: Held(Acquired(m, user), u) == Held(m, u) + (if u == user then 1 else 0)
  {
    assert Acquired(m, user).Keys == m.Keys + {user};
    assert |m.Keys + {user}| == |m.Keys| + (if user in m then 0 else 1);
  }

  lemma ReleaseEffect(m: Usage, user: nat)
    requires Sound(m) && user in m
    ensures Sound(Released(m, user))
    ensures forall u :: Held(Released(m, user), u) == Held(m, u) - (if u == user then 1 else 0)
  {
    assert Released(m, user).Keys <= m.Keys;
    assert |Released(m, user).Keys| <= |m.Keys| by {
      assert m.Keys == Released(m, user).Keys + (m.Keys - Released(m, user).Keys);
    }
  }

  // ---------------------------------------------------------------------------
  // The slots

  datatype Slot = Slot(user: nat, count: nat)

  predicate Represents(s: seq<Slot>, m: Usage) {
    && (forall i :: 0 <= i < |s| && s[i].user != 0 ==> s[i].user in m && m[s[i].user] == s[i].count)
    && (forall i, j :: 0 <= i < j < |s| && s[i].user != 0 ==> s[i].user != s[j].user)
    && (forall u :: u in m ==> u != 0 && exists i :: 0 <= i < |s| && s[i].user == u)
  }

  function Used(s: seq<Slot>): nat {
    if s == [] then 0 else Used(s[..|s| - 1]) + (if s[|s| - 1].user != 0 then 1 else 0)
  }

  /** Without the last slot the map is without its user. */
  lemma FrontRepresents(s: seq<Slot>, m: Usage)
    requires s != [] && Represents(s, m)
    ensures var last := s[|s| - 1].user;
            && Represents(s[..|s| - 1], m - {last})
            && (if last == 0 then m - {last} == m else last in m)
  {
    var (front, last) := (s[..|s| - 1], s[|s| - 1].user);
    forall u | u in m - {last} ensures u != 0 && exists i :: 0 <= i < |front| && front[i].user == u {
      var i :| 0 <= i < |s| && s[i].user == u;
      assert front[i].user == u;
    }
    assert forall i :: 0 <= i < |front| ==> front[i] == s[i];
    assert 0 !in m;
    assert last == 0 ==> m - {last} == m;
  }

  /** As many users as used slots. */
  lemma {:induction false} UsedCountsUsers(s: seq<Slot>, m: Usage)
    requires Represents(s, m)
    ensures |m| == Used(s)
  {
    if s == [] {
      assert m.Keys == {};
    } else {
      hide Represents;
      var last := s[|s| - 1].user;
      FrontRepresents(s, m);
      UsedCountsUsers(s[..|s| - 1], m - {last});
      if last != 0 {
        assert m.Keys == (m - {last}).Keys + {last};
      }
    }
  }

  lemma {:induction false} UsedBound(s: seq<Slot>)
    ensures Used(s) <= |s|
    ensures Used(s) == |s| <==> forall i :: 0 <= i < |s| ==> s[i].user != 0
  {
    if s != [] {
      var front := s[..|s| - 1];
      UsedBound(front);
      assert forall i :: 0 <= i < |front| ==> front[i] == s[i];
    }
  }

  class Table {
    const slots: array<Slot>
    ghost var usage: Usage

    ghost predicate Valid()
      reads this, slots
    {
      slots.Length == TABLE_SIZE && Sound(usage) && Represents(slots[..], usage)
    }

    constructor ()
      ensures Valid() && usage == map[] && fresh(slots)
    {
      slots := new Slot[TABLE_SIZE](_ => Slot(0, 0));
      usage := map[];
    }

    /** tee_submitter_acquire: 0 when a slot is granted, -1 otherwise. */
    method Acquire(user: nat) returns (rc: int)
      requires Valid()
      modifies this, slots
      ensures Valid()
      ensures rc == if MayAcquire(old(usage), user) then 0 else -1
      ensures usage == Acquired(old(usage), user)
    {
      if user == 0 {
        return -1;
      }
      var free := -1;
      for i := 0 to TABLE_SIZE
        invariant Valid() && usage == old(usage)
        invariant forall k :: 0 <= k < i ==> slots[k].user != user
        invariant -1 <= free < i && (free >= 0 ==> slots[free].user == 0)
        invariant free < 0 ==> forall k :: 0 <= k < i ==> slots[k].user != 0
      {
        if slots[i].user == user {
          assert slots[..][i] == slots[i];
          if slots[i].count >= MAX_PER_USER {
            return -1;
          }
          ReleaseUndoesAcquire(usage, user);
          slots[i] := slots[i].(count := slots[i].count + 1);
          usage := Acquired(usage, user);
          RepresentsUpdate(old(slots[..]), old(usage), i, user, slots[i].count);
          assert slots[..] == old(slots[..])[i := slots[i]];
          return 0;
        }
        if free < 0 && slots[i].user == 0 {
          free := i;
        }
      }
      assert user !in usage;
      UsedCountsUsers(slots[..], usage);
      UsedBound(slots[..]);
      if free < 0 {
        return -1;
      }
      assert slots[..][free].user == 0;
      ReleaseUndoesAcquire(usage, user);
      slots[free] := Slot(user, 1);
      usage := Acquired(usage, user);
      RepresentsUpdate(old(slots[..]), old(usage), free, user, 1);
      assert slots[..] == old(slots[..])[free := slots[free]];
      rc := 0;
    }

    /** tee_submitter_release: a user without a slot is ignored. */
    method Release(user: nat)
      requires Valid()
      modifies this, slots
      ensures Valid()
      ensures usage == Released(old(usage), user)
    {
      if user == 0 {
        assert usage - {user} == usage;
        return;
      }
      for i := 0 to TABLE_SIZE
        invariant Valid() && usage == old(usage)
        invariant forall k :: 0 <= k < i ==> slots[k].user != user
      {
        if slots[i].user == user {
          ReleaseSlot(i, user);
          return;
        }
      }
      assert user !in usage;
      assert usage - {user} == usage;
    }

    method ReleaseSlot(i: nat, user: nat)
      requires Valid() && i < TABLE_SIZE && user != 0 && slots[i].user == user
      modifies this, slots
      ensures Valid()
      ensures usage == Released(old(usage), user)
    {
      assert slots[..][i] == slots[i];
      ReleaseEffect(usage, user);
      if slots[i].count > 0 {
        slots[i] := slots[i].(count := slots[i].count - 1);
      }
      if slots[i].count == 0 {
        slots[i] := slots[i].(user := 0);
      }
      usage := Released(usage, user);
      assert slots[..] == old(slots[..])[i := slots[i]];
      if slots[i].user == 0 {
        RepresentsRemoval(old(slots[..]), old(usage), i, slots[i].count);
      } else {
        RepresentsUpdate(old(slots[..]), old(usage), i, user, slots[i].count);
      }
    }

    /** tee_submitter_inflight. */
    method InFlight(user: nat) returns (held: nat)
      requires Valid()
      ensures held == Held(usage, user)
    {
      held := 0;
      for i := 0 to TABLE_SIZE
        invariant held == 0
        invariant user != 0 ==> forall k :: 0 <= k < i ==> slots[k].user != user
      {
        if user != 0 && slots[i].user == user {
          assert slots[..][i] == slots[i];
          return slots[i].count;
        }
      }
      assert user !in usage;
    }

    /** tee_submitter_table_used: the number of users with a scan in flight. */
    method UsedSlots() returns (used: nat)
      requires Valid()
      ensures used == |usage|
    {
      used := 0;
      for i := 0 to TABLE_SIZE
        invariant used == Used(slots[..i])
      {
        assert slots[..i + 1][..i] == slots[..i];
        if slots[i].user != 0 {
          used := used + 1;
        }
      }
      assert slots[..TABLE_SIZE] == slots[..];
      UsedCountsUsers(slots[..], usage);
    }
  }

  /** Writing the one slot that is free or already the user's own. */
  lemma RepresentsUpdate(s: seq<Slot>, m: Usage, i: nat, user: nat, count: nat)
    requires Represents(s, m) && i < |s| && user != 0
    requires s[i].user == user || (s[i].user == 0 && user !in m)
    ensures Represents(s[i := Slot(user, count)], m[user := count])
  {
    var s', m' := s[i := Slot(user, count)], m[user := count];
    forall u | u in m' ensures exists k :: 0 <= k < |s'| && s'[k].user == u {
      if u == user {
        assert s'[i].user == u;
      } else {
        var k :| 0 <= k < |s| && s[k].user == u;
        assert s'[k].user == u;
      }
    }
  }

  lemma RepresentsRemoval(s: seq<Slot>, m: Usage, i: nat, count: nat)
    requires Represents(s, m) && i < |s| && s[i].user != 0
    ensures Represents(s[i := Slot(0, count)], m - {s[i].user})
  {
    var s', m' := s[i := Slot(0, count)], m - {s[i].user};
    forall u | u in m' ensures exists k :: 0 <= k < |s'| && s'[k].user == u {
      var k :| 0 <= k < |s| && s[k].user == u;
      assert s'[k].user == u;
    }
  }
}
