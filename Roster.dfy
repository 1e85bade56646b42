/**
 The roster of the single room "default" kept by the Socket.IO server
 (server/src/index.ts): the identity a connection is given, the dedup-by-id
 join and the filter-by-id leave, as functions on the ordered list of users.
 */
module Roster {
  import opened Prelude

  /** The server's `User` record. */
  datatype User = User(id: string, name: string)

  /** The only room the server ever uses. */
  const DefaultRoom: string := "default"

  /** The display name used when the handshake carries none. */
  const AnonymousName: string := "Anonymous"

  /**
   `userId ?? socketId` and `name ?? "Anonymous"`: a hint replaces the fallback
   whenever it is present, even when it is the empty string.
   */
  function Identity(socketId: string, userId: Option<string>, name: Option<string>): (u: User)
    ensures userId.Some? ==> u.id == userId.value
    ensures userId.None? ==> u.id == socketId
    ensures name.Some? ==> u.name == name.value
    ensures name.None? ==> u.name == AnonymousName
  {
    User(if userId.Some? then userId.value else socketId,
         if name.Some? then name.value else AnonymousName)
  }

  /** Some entry of the roster has this id. */
  ghost predicate HasId(r: seq<User>, id: string)
  {
    exists i :: 0 <= i < |r| && r[i].id == id
  }

  /**
   No two entries of the roster share an id. This is `Distinct` on the ids rather
   than on the entries: two entries with one id and different names would be
   distinct users but still a duplicate here. `HasId` is the specification that
   `Find` below, the executable search, is proved against.
   */
  ghost predicate UniqueIds(r: seq<User>)
  {
    forall i, j :: 0 <= i < j < |r| ==> r[i].id != r[j].id
  }

  /** How many entries of the roster carry this id. */
  function CountId(r: seq<User>, id: string): nat
  {
    if r == [] then 0 else (if r[0].id == id then 1 else 0) + CountId(r[1..], id)
  }

  /** `r.find(u => u.id === id)`: the first entry with that id, if there is one. */
  function Find(r: seq<User>, id: string): (f: Option<User>)
    ensures f.Some? <==> HasId(r, id)
    ensures f.Some? ==> exists i :: 0 <= i < |r| && r[i] == f.value && r[i].id == id &&
                                    forall j :: 0 <= j < i ==> r[j].id != id
  {
    if r == [] then None
    else if r[0].id == id then Some(r[0])
    else
      var f := Find(r[1..], id);
      assert forall i :: 0 < i < |r| ==> r[i] == r[1..][i - 1];
      f
  }

  /**
   Connect: append the user unless an entry with the same id is already present.
   The id is there afterwards, every earlier entry keeps its place, and the
   roster grows by one exactly when the id was new.
   */
  function Join(r: seq<User>, u: User): (r': seq<User>)
    ensures HasId(r', u.id)
    ensures |r'| == if HasId(r, u.id) then |r| else |r| + 1
    ensures forall i :: 0 <= i < |r| ==> r'[i] == r[i]
  {
    if Find(r, u.id).Some? then r
    else
      assert (r + [u])[|r|] == u;
      r + [u]
  }

  /** Disconnect: `r.filter(u => u.id !== id)`. */
  function Leave(r: seq<User>, id: string): (r': seq<User>)
    ensures |r'| <= |r|
    ensures forall u :: u in r' <==> u in r && u.id != id
  {
    if r == [] then []
    else if r[0].id == id then Leave(r[1..], id)
    else [r[0]] + Leave(r[1..], id)
  }

  // ----- join -----

  /** A known id leaves the roster exactly as it was: the stored name is not refreshed. */
  lemma JoinKnown(r: seq<User>, u: User)
    requires HasId(r, u.id)
    ensures Join(r, u) == r
  {
  }

  /** A new id is appended at the end; the earlier entries keep their order. */
  lemma JoinNew(r: seq<User>, u: User)
    requires !HasId(r, u.id)
    ensures Join(r, u) == r + [u]
    ensures Join(r, u)[..|r|] == r && Join(r, u)[|r|] == u
  {
  }

  /** Joining keeps the ids pairwise distinct. */
  lemma JoinUniqueIds(r: seq<User>, u: User)
    requires UniqueIds(r)
    ensures UniqueIds(Join(r, u))
  {
  }

  /** After a join from a duplicate-free roster, the user's id occurs exactly once. */
  lemma JoinContainsOnce(r: seq<User>, u: User)
    requires UniqueIds(r)
    ensures CountId(Join(r, u), u.id) == 1
  {
    JoinUniqueIds(r, u);
    CountPositive(Join(r, u), u.id);
    UniqueCountAtMostOne(Join(r, u), u.id);
    if !HasId(r, u.id) {
      assert Join(r, u)[|r|].id == u.id;
    }
  }

  // ----- counting -----

  /** The count is positive exactly when the id is present. */
  lemma {:induction false} CountPositive(r: seq<User>, id: string)
    ensures CountId(r, id) > 0 <==> HasId(r, id)
  {
    if r != [] {
      CountPositive(r[1..], id);
      assert forall i :: 0 < i < |r| ==> r[i] == r[1..][i - 1];
      if HasId(r[1..], id) {
        var i :| 0 <= i < |r[1..]| && r[1..][i].id == id;
        assert r[i + 1].id == id;
      }
    }
  }

  /** In a duplicate-free roster an id occurs at most once. */
  lemma {:induction false} UniqueCountAtMostOne(r: seq<User>, id: string)
    requires UniqueIds(r)
    ensures CountId(r, id) <= 1
  {
    if r != [] {
      assert UniqueIds(r[1..]) by {
        assert forall i :: 0 <= i < |r[1..]| ==> r[1..][i] == r[i + 1];
      }
      UniqueCountAtMostOne(r[1..], id);
      if r[0].id == id {
        assert forall i :: 0 <= i < |r[1..]| ==> r[1..][i].id != id by {
          assert forall i :: 0 <= i < |r[1..]| ==> r[1..][i] == r[i + 1];
        }
        CountPositive(r[1..], id);
      }
    }
  }

  // ----- leave -----

  /** Leave removes every entry with that id ... */
  lemma {:induction false} LeaveRemovesAll(r: seq<User>, id: string)
    ensures CountId(Leave(r, id), id) == 0
  {
    if r != [] {
      LeaveRemovesAll(r[1..], id);
      if r[0].id != id {
        assert ([r[0]] + Leave(r[1..], id))[1..] == Leave(r[1..], id);
      }
    }
  }

  /** ... and keeps every other entry, as often as it occurred. */
  lemma {:induction false} LeaveKeepsOthers(r: seq<User>, id: string, other: string)
    requires other != id
    ensures CountId(Leave(r, id), other) == CountId(r, other)
  {
    if r != [] {
      LeaveKeepsOthers(r[1..], id, other);
      if r[0].id != id {
        assert ([r[0]] + Leave(r[1..], id))[1..] == Leave(r[1..], id);
      }
    }
  }

  /** Leave is a filter: it works piecewise, so kept entries stay in their relative order. */
  lemma {:induction false} LeaveAppend(a: seq<User>, b: seq<User>, id: string)
    ensures Leave(a + b, id) == Leave(a, id) + Leave(b, id)
  {
    if a == [] {
      assert a + b == b;
    } else {
      assert (a + b)[0] == a[0] && (a + b)[1..] == a[1..] + b;
      if a[0].id == id {
        calc {
          Leave(a + b, id);
          Leave(a[1..] + b, id);
          { LeaveAppend(a[1..], b, id); }
          Leave(a[1..], id) + Leave(b, id);
        }
      } else {
        calc {
          Leave(a + b, id);
          [a[0]] + Leave(a[1..] + b, id);
          { LeaveAppend(a[1..], b, id); }
          [a[0]] + (Leave(a[1..], id) + Leave(b, id));
          ([a[0]] + Leave(a[1..], id)) + Leave(b, id);
        }
      }
    }
  }

  /** Leave on a single entry keeps it exactly when its id differs. */
  lemma LeaveSingle(u: User, id: string)
    ensures Leave([u], id) == if u.id == id then [] else [u]
  {
  }

  /** Leave of an absent id is a no-op. */
  lemma {:induction false} LeaveAbsent(r: seq<User>, id: string)
    requires !HasId(r, id)
    ensures Leave(r, id) == r
  {
    if r != [] {
      assert !HasId(r[1..], id) by {
        assert forall i :: 0 <= i < |r[1..]| ==> r[1..][i] == r[i + 1];
      }
      LeaveAbsent(r[1..], id);
      assert r == [r[0]] + r[1..];
    }
  }

  /** Leave keeps the ids pairwise distinct. */
  lemma {:induction false} LeaveUniqueIds(r: seq<User>, id: string)
    requires UniqueIds(r)
    ensures UniqueIds(Leave(r, id))
  {
    if r != [] {
      assert UniqueIds(r[1..]) by {
        assert forall i :: 0 <= i < |r[1..]| ==> r[1..][i] == r[i + 1];
      }
      LeaveUniqueIds(r[1..], id);
      if r[0].id != id {
        var t := Leave(r[1..], id);
        var r' := [r[0]] + t;
        forall i, j | 0 <= i < j < |r'| ensures r'[i].id != r'[j].id {
          if i == 0 {
            // t holds only entries of r[1..], none of which shares r[0]'s id
            assert r'[j] == t[j - 1];
            assert t[j - 1] in r[1..];
            var k :| 0 <= k < |r[1..]| && r[1..][k] == t[j - 1];
            assert r[k + 1] == t[j - 1];
          } else {
            assert r'[i] == t[i - 1] && r'[j] == t[j - 1];
          }
        }
      }
    }
  }

  /**
   Two joins under one id, then one leave of that id: the id is gone from the
   roster (RelayServer.DisconnectSharedId states this for live connections).
   */
  lemma SharedIdDroppedEarly(r: seq<User>, first: User, second: User)
    requires first.id == second.id
    ensures HasId(Join(Join(r, first), second), first.id)
    ensures !HasId(Leave(Join(Join(r, first), second), first.id), first.id)
  {
  }
}
