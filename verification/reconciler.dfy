/** The permission reconciler (`doSetPermission`, Acl/AclManager.php:201-233).

    `ReconcileAces` is a reference definition that does not depend on visiting
    order: every entry of the target identity with the requested polarity gets
    the new mask, every one with the opposite polarity is dropped, all other
    entries stay as they are, and then one new entry is inserted at `index` if
    something was dropped or nothing matched. `SetPermissionWalk` is the
    loop of `doSetPermission`, a walk from the last index down to 0 that edits the live
    list in place, and is proved to compute the reference definition.
    `SetPermission` lifts this to an ACL held by the provider and ends with
    one `updateAcl` call. */
module Reconciler {
  import opened Domain
  import opened Provider

  /** What the walk does to one entry. */
  function Visit(a: Ace, sid: SecurityIdentity, mask: int, granting: bool): seq<Ace>
  {
    if a.sid != sid then [a]
    else if a.granting == granting then [a.(mask := mask)]
    else []
  }

  /** The list after the walk, before any insertion. */
  function Walk(aces: seq<Ace>, sid: SecurityIdentity, mask: int, granting: bool): seq<Ace>
    decreases |aces|
  {
    if |aces| == 0 then [] else Visit(aces[0], sid, mask, granting) + Walk(aces[1..], sid, mask, granting)
  }

  /** Number of entries of `sid` with polarity `granting`. */
  function Tally(aces: seq<Ace>, sid: SecurityIdentity, granting: bool): nat
    decreases |aces|
  {
    if |aces| == 0 then 0
    else (if aces[0].sid == sid && aces[0].granting == granting then 1 else 0)
         + Tally(aces[1..], sid, granting)
  }

  /** Number of entries of `sid`, whatever their polarity. */
  function Count(aces: seq<Ace>, sid: SecurityIdentity): nat
  {
    Tally(aces, sid, true) + Tally(aces, sid, false)
  }

  /** The entries of `sid`, in order. */
  function For(aces: seq<Ace>, sid: SecurityIdentity): seq<Ace>
    decreases |aces|
  {
    if |aces| == 0 then []
    else (if aces[0].sid == sid then [aces[0]] else []) + For(aces[1..], sid)
  }

  /** The entries of every other identity, in order. */
  function Without(aces: seq<Ace>, sid: SecurityIdentity): seq<Ace>
    decreases |aces|
  {
    if |aces| == 0 then []
    else (if aces[0].sid != sid then [aces[0]] else []) + Without(aces[1..], sid)
  }

  /** The insertion test of `doSetPermission`: an opposite entry was deleted, or no entry
      of `sid` was found. */
  predicate NeedsInsert(aces: seq<Ace>, sid: SecurityIdentity, granting: bool)
  {
    Tally(aces, sid, !granting) > 0 || Count(aces, sid) == 0
  }

  /** The insert index is read only when an entry is inserted, and it must
      then name a position of the walked list or its end. */
  predicate IndexFits(aces: seq<Ace>, sid: SecurityIdentity, mask: int, granting: bool, index: int)
  {
    NeedsInsert(aces, sid, granting) ==> 0 <= index <= |Walk(aces, sid, mask, granting)|
  }

  /** The entry list after reconciling `sid` to (`mask`, `granting`). */
  function ReconcileAces(aces: seq<Ace>, sid: SecurityIdentity, mask: int, granting: bool, index: int): seq<Ace>
    requires IndexFits(aces, sid, mask, granting, index)
  {
    var kept := Walk(aces, sid, mask, granting);
    if NeedsInsert(aces, sid, granting) then kept[..index] + [Ace(sid, mask, granting)] + kept[index..]
    else kept
  }

  // ---------------------------------------------------------------------------
  // The entry accessors of an ACL (update, delete and insert at a position).

  function UpdateAt(s: seq<Ace>, i: nat, mask: int): (r: seq<Ace>)
    requires i < |s|
    ensures |r| == |s| && r[i] == s[i].(mask := mask)
    ensures forall j :: 0 <= j < |s| && j != i ==> r[j] == s[j]
  {
    s[i := s[i].(mask := mask)]
  }

  function DeleteAt(s: seq<Ace>, i: nat): (r: seq<Ace>)
    requires i < |s|
    ensures |r| == |s| - 1
    ensures forall j :: 0 <= j < i ==> r[j] == s[j]
    ensures forall j :: i <= j < |r| ==> r[j] == s[j + 1]
  {
    s[..i] + s[i + 1..]
  }

  function InsertAt(s: seq<Ace>, i: nat, a: Ace): (r: seq<Ace>)
    requires i <= |s|
    ensures |r| == |s| + 1 && r[i] == a
    ensures forall j :: 0 <= j < i ==> r[j] == s[j]
    ensures forall j :: i < j < |r| ==> r[j] == s[j - 1]
  {
    s[..i] + [a] + s[i..]
  }

  // ---------------------------------------------------------------------------
  // Facts about the walk.

  lemma {:induction false} WithoutConcat(a: seq<Ace>, b: seq<Ace>, sid: SecurityIdentity)
    ensures Without(a + b, sid) == Without(a, sid) + Without(b, sid)
    decreases |a|
  {
    if |a| == 0 {
      assert a + b == b;
    } else {
      assert (a + b)[1..] == a[1..] + b;
      WithoutConcat(a[1..], b, sid);
    }
  }

  /** The walk drops exactly the opposite-polarity entries of `sid`. */
  lemma {:induction false} WalkLength(aces: seq<Ace>, sid: SecurityIdentity, mask: int, granting: bool)
    ensures |Walk(aces, sid, mask, granting)| == |aces| - Tally(aces, sid, !granting)
    decreases |aces|
  {
    if |aces| > 0 {
      WalkLength(aces[1..], sid, mask, granting);
    }
  }

  /** Entries of other identities keep their values and their relative order. */
  lemma {:induction false} WalkKeepsOthers(aces: seq<Ace>, sid: SecurityIdentity, mask: int, granting: bool)
    ensures Without(Walk(aces, sid, mask, granting), sid) == Without(aces, sid)
    decreases |aces|
  {
    if |aces| > 0 {
      var v := Visit(aces[0], sid, mask, granting);
      WithoutConcat(v, Walk(aces[1..], sid, mask, granting), sid);
      WalkKeepsOthers(aces[1..], sid, mask, granting);
    }
  }

  /** After the walk, every entry of `sid` is (`sid`, `mask`, `granting`), and
      there are as many as there were same-polarity entries before. */
  lemma {:induction false} WalkEntriesOfSid(aces: seq<Ace>, sid: SecurityIdentity, mask: int, granting: bool)
    ensures var w := Walk(aces, sid, mask, granting);
            && (forall j :: 0 <= j < |w| && w[j].sid == sid ==> w[j] == Ace(sid, mask, granting))
            && Tally(w, sid, granting) == Tally(aces, sid, granting)
            && Tally(w, sid, !granting) == 0
    decreases |aces|
  {
    if |aces| > 0 {
      var v := Visit(aces[0], sid, mask, granting);
      var rest := Walk(aces[1..], sid, mask, granting);
      WalkEntriesOfSid(aces[1..], sid, mask, granting);
      TallyConcat(v, rest, sid, granting);
      TallyConcat(v, rest, sid, !granting);
      var w := v + rest;
      forall j | 0 <= j < |w| && w[j].sid == sid
        ensures w[j] == Ace(sid, mask, granting)
      {
        if j >= |v| {
          assert w[j] == rest[j - |v|];
        }
      }
    }
  }

  lemma {:induction false} TallyConcat(a: seq<Ace>, b: seq<Ace>, sid: SecurityIdentity, granting: bool)
    ensures Tally(a + b, sid, granting) == Tally(a, sid, granting) + Tally(b, sid, granting)
    decreases |a|
  {
    if |a| == 0 {
      assert a + b == b;
    } else {
      assert (a + b)[1..] == a[1..] + b;
      TallyConcat(a[1..], b, sid, granting);
    }
  }

  /** When every entry of `sid` in `s` equals `e`, `For` lists `Count` copies
      of `e`. */
  lemma {:induction false} ForUniform(s: seq<Ace>, sid: SecurityIdentity, e: Ace)
    requires forall j :: 0 <= j < |s| && s[j].sid == sid ==> s[j] == e
    ensures |For(s, sid)| == Count(s, sid)
    ensures forall j :: 0 <= j < |For(s, sid)| ==> For(s, sid)[j] == e
    decreases |s|
  {
    if |s| > 0 {
      var tail := s[1..];
      assert forall j :: 0 <= j < |tail| && tail[j].sid == sid ==> tail[j] == e by {
        forall j | 0 <= j < |tail| && tail[j].sid == sid
          ensures tail[j] == e
        {
          assert tail[j] == s[j + 1];
        }
      }
      ForUniform(tail, sid, e);
    }
  }

  /** A walk over a list already reconciled for `sid` changes nothing. */
  lemma {:induction false} WalkCanonical(s: seq<Ace>, sid: SecurityIdentity, mask: int, granting: bool)
    requires forall j :: 0 <= j < |s| && s[j].sid == sid ==> s[j] == Ace(sid, mask, granting)
    ensures Walk(s, sid, mask, granting) == s
    decreases |s|
  {
    if |s| > 0 {
      WalkCanonical(s[1..], sid, mask, granting);
      assert Visit(s[0], sid, mask, granting) == [s[0]];
      assert [s[0]] + s[1..] == s;
    }
  }

  /** The walk introduces no identity: every entry it yields was allocated
      below `n` when the input's were. */
  lemma {:induction false} WalkHandles(aces: seq<Ace>, sid: SecurityIdentity, mask: int, granting: bool, n: nat)
    requires HandlesBelow(aces, n)
    ensures HandlesBelow(Walk(aces, sid, mask, granting), n)
    decreases |aces|
  {
    if |aces| > 0 {
      WalkHandles(aces[1..], sid, mask, granting, n);
      var v := Visit(aces[0], sid, mask, granting);
      var rest := Walk(aces[1..], sid, mask, granting);
      var w: seq<Ace> := v + rest;
      forall j | 0 <= j < |w|
        ensures w[j].sid.handle < n
      {
        if j >= |v| {
          assert w[j] == rest[j - |v|];
        }
      }
    }
  }

  /** When `sid` has no entry at all, the walk is the identity. */
  lemma {:induction false} WalkAbsent(aces: seq<Ace>, sid: SecurityIdentity, mask: int, granting: bool)
    requires Count(aces, sid) == 0
    ensures Walk(aces, sid, mask, granting) == aces
    decreases |aces|
  {
    if |aces| > 0 {
      WalkAbsent(aces[1..], sid, mask, granting);
      assert [aces[0]] + aces[1..] == aces;
    }
  }

  // ---------------------------------------------------------------------------
  // Properties of one reconcile call.

  /** What a reconcile call does to the entry list, as `doSetPermission` does it:
      - an entry is inserted exactly when an opposite entry was deleted or no
        entry of `sid` existed, and then it sits at `index`;
      - opposite-polarity entries of `sid` are removed, same-polarity ones end
        with the new mask, so every entry of `sid` is the requested one;
      - entries of other identities keep their values and relative order. */
  lemma ReconcileSpec(aces: seq<Ace>, sid: SecurityIdentity, mask: int, granting: bool, index: int)
    requires IndexFits(aces, sid, mask, granting, index)
    ensures var r := ReconcileAces(aces, sid, mask, granting, index);
            var inserted := if Tally(aces, sid, !granting) > 0 || Count(aces, sid) == 0 then 1 else 0;
            && |r| == |aces| - Tally(aces, sid, !granting) + inserted
            && (inserted == 1 ==> r[index] == Ace(sid, mask, granting))
            && Without(r, sid) == Without(aces, sid)
            && (forall j :: 0 <= j < |r| && r[j].sid == sid ==> r[j] == Ace(sid, mask, granting))
            && Tally(r, sid, granting) == Tally(aces, sid, granting) + inserted
            && Tally(r, sid, !granting) == 0
  {
    var kept := Walk(aces, sid, mask, granting);
    var e := Ace(sid, mask, granting);
    WalkLength(aces, sid, mask, granting);
    WalkKeepsOthers(aces, sid, mask, granting);
    WalkEntriesOfSid(aces, sid, mask, granting);
    if NeedsInsert(aces, sid, granting) {
      InsertOfSid(kept, index, e);
    }
  }

  /** Inserting an entry of `e.sid` anywhere leaves the other identities'
      entries alone, adds one to the tally of its polarity, and keeps the list
      uniform for `e.sid` when it was. */
  lemma InsertOfSid(kept: seq<Ace>, index: nat, e: Ace)
    requires index <= |kept|
    ensures var r := InsertAt(kept, index, e);
            && Without(r, e.sid) == Without(kept, e.sid)
            && Tally(r, e.sid, e.granting) == Tally(kept, e.sid, e.granting) + 1
            && Tally(r, e.sid, !e.granting) == Tally(kept, e.sid, !e.granting)
            && ((forall j :: 0 <= j < |kept| && kept[j].sid == e.sid ==> kept[j] == e) ==>
                (forall j :: 0 <= j < |r| && r[j].sid == e.sid ==> r[j] == e))
  {
    var front, back := kept[..index], kept[index..];
    assert kept == front + back;
    assert InsertAt(kept, index, e) == front + [e] + back;
    WithoutConcat(front + [e], back, e.sid);
    WithoutConcat(front, [e], e.sid);
    WithoutConcat(front, back, e.sid);
    TallyConcat(front + [e], back, e.sid, e.granting);
    TallyConcat(front, [e], e.sid, e.granting);
    TallyConcat(front, back, e.sid, e.granting);
    TallyConcat(front + [e], back, e.sid, !e.granting);
    TallyConcat(front, [e], e.sid, !e.granting);
    TallyConcat(front, back, e.sid, !e.granting);
  }

  /** If the list held at most one entry for `sid`, it ends with exactly one,
      carrying the requested mask and polarity. */
  lemma ReconcileUnique(aces: seq<Ace>, sid: SecurityIdentity, mask: int, granting: bool, index: int)
    requires Count(aces, sid) <= 1
    requires IndexFits(aces, sid, mask, granting, index)
    ensures For(ReconcileAces(aces, sid, mask, granting, index), sid) == [Ace(sid, mask, granting)]
  {
    var r := ReconcileAces(aces, sid, mask, granting, index);
    ReconcileSpec(aces, sid, mask, granting, index);
    ForUniform(r, sid, Ace(sid, mask, granting));
  }

  /** Reconciling twice with the same arguments is the same as once. */
  lemma ReconcileIdempotent(aces: seq<Ace>, sid: SecurityIdentity, mask: int, granting: bool, index: int)
    requires IndexFits(aces, sid, mask, granting, index)
    ensures var r := ReconcileAces(aces, sid, mask, granting, index);
            && IndexFits(r, sid, mask, granting, index)
            && ReconcileAces(r, sid, mask, granting, index) == r
  {
    var r := ReconcileAces(aces, sid, mask, granting, index);
    ReconcileSpec(aces, sid, mask, granting, index);
    WalkCanonical(r, sid, mask, granting);
    WalkLength(aces, sid, mask, granting);
    assert !NeedsInsert(r, sid, granting);
  }

  /** Reconciling an identity that has no entry yet, at index 0, puts the new
      entry in front of an otherwise unchanged list. */
  lemma ReconcileAbsentPrepends(aces: seq<Ace>, sid: SecurityIdentity, mask: int, granting: bool)
    requires Count(aces, sid) == 0
    ensures ReconcileAces(aces, sid, mask, granting, 0) == [Ace(sid, mask, granting)] + aces
  {
    WalkAbsent(aces, sid, mask, granting);
  }

  /** The identities named by the entries of `aces`. */
  function SidSet(aces: seq<Ace>): set<SecurityIdentity>
    decreases |aces|
  {
    if |aces| == 0 then {} else {aces[0].sid} + SidSet(aces[1..])
  }

  /** Dropping the entries of `sid` drops exactly `sid` from the identities
      named. */
  lemma {:induction false} SidSetWithout(aces: seq<Ace>, sid: SecurityIdentity)
    ensures SidSet(Without(aces, sid)) == SidSet(aces) - {sid}
    decreases |aces|
  {
    if |aces| > 0 {
      SidSetWithout(aces[1..], sid);
      SidSetConcat(if aces[0].sid != sid then [aces[0]] else [], Without(aces[1..], sid));
    }
  }

  lemma {:induction false} SidSetConcat(a: seq<Ace>, b: seq<Ace>)
    ensures SidSet(a + b) == SidSet(a) + SidSet(b)
    decreases |a|
  {
    if |a| > 0 {
      assert (a + b)[1..] == a[1..] + b;
      SidSetConcat(a[1..], b);
    } else {
      assert a + b == b;
    }
  }

  /** An identity with an entry of either polarity is named by the list. */
  lemma {:induction false} TallyNamed(aces: seq<Ace>, sid: SecurityIdentity, granting: bool)
    requires Tally(aces, sid, granting) > 0
    ensures sid in SidSet(aces)
    decreases |aces|
  {
    if aces[0].sid != sid || aces[0].granting != granting {
      TallyNamed(aces[1..], sid, granting);
    }
  }

  /** After a reconcile the list names exactly the identities it named
      before, plus the reconciled one: no identity is lost, even when all
      its entries were opposite ones, and no other identity appears. */
  lemma ReconcileIdentities(aces: seq<Ace>, sid: SecurityIdentity, mask: int, granting: bool, index: int)
    requires IndexFits(aces, sid, mask, granting, index)
    ensures SidSet(ReconcileAces(aces, sid, mask, granting, index)) == SidSet(aces) + {sid}
  {
    var r := ReconcileAces(aces, sid, mask, granting, index);
    ReconcileSpec(aces, sid, mask, granting, index);
    SidSetWithout(r, sid);
    SidSetWithout(aces, sid);
    assert Tally(r, sid, granting) > 0 by {
      if !NeedsInsert(aces, sid, granting) {
        assert Tally(aces, sid, granting) > 0 by {
          if granting {
            assert Count(aces, sid) == Tally(aces, sid, granting) + Tally(aces, sid, !granting);
          } else {
            assert Count(aces, sid) == Tally(aces, sid, !granting) + Tally(aces, sid, granting);
          }
        }
      }
    }
    TallyNamed(r, sid, granting);
    var before, after := SidSet(aces), SidSet(r);
    assert after - {sid} == before - {sid};
    assert after == (after - {sid}) + {sid};
  }

  /** Reconciling keeps every identity of the list allocated below `n` when
      the reconciled identity is. */
  lemma ReconcileHandles(aces: seq<Ace>, sid: SecurityIdentity, mask: int, granting: bool, index: int, n: nat)
    requires IndexFits(aces, sid, mask, granting, index)
    requires HandlesBelow(aces, n) && sid.handle < n
    ensures HandlesBelow(ReconcileAces(aces, sid, mask, granting, index), n)
  {
    WalkHandles(aces, sid, mask, granting, n);
  }

  /** `For` lists exactly the `Count` entries of `sid`. */
  lemma {:induction false} ForCount(s: seq<Ace>, sid: SecurityIdentity)
    ensures |For(s, sid)| == Count(s, sid)
    decreases |s|
  {
    if |s| > 0 {
      ForCount(s[1..], sid);
    }
  }

  /** A grant followed by a deny leaves only the deny: whatever entries `sid`
      had, granting `m1` and then denying `m2` ends with the single entry
      (`sid`, `m2`, deny), other identities untouched; and from at most one
      entry, the grant alone leaves the single entry (`sid`, `m1`, grant). */
  lemma PolarityFlip(aces: seq<Ace>, sid: SecurityIdentity, m1: int, m2: int)
    ensures var granted := ReconcileAces(aces, sid, m1, true, 0);
            var denied := ReconcileAces(granted, sid, m2, false, 0);
            && (Count(aces, sid) <= 1 ==> For(granted, sid) == [Ace(sid, m1, true)])
            && For(denied, sid) == [Ace(sid, m2, false)]
            && Without(denied, sid) == Without(aces, sid)
  {
    var granted := ReconcileAces(aces, sid, m1, true, 0);
    ReconcileSpec(aces, sid, m1, true, 0);
    if Count(aces, sid) <= 1 {
      ReconcileUnique(aces, sid, m1, true, 0);
    }
    assert Tally(granted, sid, true) > 0;
    var denied := ReconcileAces(granted, sid, m2, false, 0);
    var e := Ace(sid, m2, false);
    ReconcileSpec(granted, sid, m2, false, 0);
    ForUniform(denied, sid, e);
    assert For(denied, sid) == [e];
  }

  /** A run of reconcile calls for one identity, each granting the next mask of
      `masks` at index 0. */
  function GrantAll(aces: seq<Ace>, sid: SecurityIdentity, masks: seq<int>): seq<Ace>
    decreases |masks|
  {
    if |masks| == 0 then aces
    else GrantAll(ReconcileAces(aces, sid, masks[0], true, 0), sid, masks[1..])
  }

  /** After any non-empty run of grants to an identity that held at most one
      entry, it holds exactly one grant, with the last mask supplied, and no
      other identity's entries moved. */
  lemma {:induction false} LastMaskWins(aces: seq<Ace>, sid: SecurityIdentity, masks: seq<int>)
    requires Count(aces, sid) <= 1
    requires |masks| > 0
    ensures For(GrantAll(aces, sid, masks), sid) == [Ace(sid, masks[|masks| - 1], true)]
    ensures Without(GrantAll(aces, sid, masks), sid) == Without(aces, sid)
    decreases |masks|
  {
    var next := ReconcileAces(aces, sid, masks[0], true, 0);
    ReconcileUnique(aces, sid, masks[0], true, 0);
    ReconcileSpec(aces, sid, masks[0], true, 0);
    if |masks| > 1 {
      ForCount(next, sid);
      LastMaskWins(next, sid, masks[1..]);
    }
  }

  /** Five entries, where positions 1 and 3 belong to the target identity with
      opposite polarities: granting deletes the deny at 3, updates the grant at
      1, leaves positions 0, 2 and 4 as they were, and (because a deletion
      happened) also inserts a new grant in front, so the identity ends with two
      equal grants: the walk does not restore uniqueness by itself. */
  lemma ReverseOrderExample()
    ensures var t := Sid(0, RoleName("ROLE_EDITOR"));
            var a := Ace(Sid(1, RoleName("ROLE_A")), 1, true);
            var b := Ace(Sid(2, RoleName("ROLE_B")), 2, false);
            var c := Ace(Sid(3, RoleName("ROLE_C")), 4, true);
            var aces := [a, Ace(t, 8, true), b, Ace(t, 16, false), c];
            ReconcileAces(aces, t, 32, true, 0) == [Ace(t, 32, true), a, Ace(t, 32, true), b, c]
  {
  }

  // ---------------------------------------------------------------------------
  // The loop of `doSetPermission`.

  /** One step of the walk, as seen from the suffix it has covered. */
  lemma WalkStep(aces: seq<Ace>, i: nat, sid: SecurityIdentity, mask: int, granting: bool)
    requires i < |aces|
    ensures Walk(aces[i..], sid, mask, granting)
            == Visit(aces[i], sid, mask, granting) + Walk(aces[i + 1..], sid, mask, granting)
    ensures Tally(aces[i..], sid, true) == (if aces[i].sid == sid && aces[i].granting then 1 else 0) + Tally(aces[i + 1..], sid, true)
    ensures Tally(aces[i..], sid, false) == (if aces[i].sid == sid && !aces[i].granting then 1 else 0) + Tally(aces[i + 1..], sid, false)
  {
  }

  /** Editing position `i` of a list whose first `i + 1` entries are still
      the original ones, and whose rest is the walk of the entries above `i`:
      the edit `doSetPermission` makes there (update, delete or nothing) leaves the
      original prefix below `i` followed by the walk of the entries from `i` on. */
  lemma LiveEdit(aces: seq<Ace>, i: nat, sid: SecurityIdentity, mask: int, granting: bool)
    requires i < |aces|
    ensures var cur := aces[..i + 1] + Walk(aces[i + 1..], sid, mask, granting);
            var walked := aces[..i] + Walk(aces[i..], sid, mask, granting);
            && i < |cur|
            && (aces[i].sid == sid && aces[i].granting == granting ==> UpdateAt(cur, i, mask) == walked)
            && (aces[i].sid == sid && aces[i].granting != granting ==> DeleteAt(cur, i) == walked)
            && (aces[i].sid != sid ==> cur == walked)
  {
    var rest := Walk(aces[i + 1..], sid, mask, granting);
    var cur := aces[..i + 1] + rest;
    WalkStep(aces, i, sid, mask, granting);
    assert aces[..i + 1] == aces[..i] + [aces[i]];
    var v := Visit(aces[i], sid, mask, granting);
    assert aces[..i] + Walk(aces[i..], sid, mask, granting) == aces[..i] + v + rest;
    if aces[i].sid == sid && aces[i].granting == granting {
      assert UpdateAt(cur, i, mask) == aces[..i] + v + rest;
    } else if aces[i].sid == sid {
      assert DeleteAt(cur, i) == aces[..i] + v + rest;
    } else {
      assert cur == aces[..i] + v + rest;
    }
  }

  /** The downward walk over the entry list fetched before the loop, editing
      the live list by index (Acl/AclManager.php:210-230). Walking downward
      keeps every index below the current one pointing at the same entry it
      pointed at before the loop, which is what the invariant `cur == aces[..i]
      + ...` records; the flags record what the walk has seen so far. */
  method SetPermissionWalk(aces: seq<Ace>, sid: SecurityIdentity, mask: int, granting: bool, index: int)
    returns (r: seq<Ace>, inserted: bool)
    requires IndexFits(aces, sid, mask, granting, index)
    ensures r == ReconcileAces(aces, sid, mask, granting, index)
    ensures inserted <==> Tally(aces, sid, !granting) > 0 || Count(aces, sid) == 0
  {
    var cur, aceFound, doInsert := WalkDown(aces, sid, mask, granting);
    inserted := doInsert || !aceFound;
    if inserted {
      cur := InsertAt(cur, index, Ace(sid, mask, granting));
    }
    r := cur;
  }

  /** The loop itself: it leaves the walked list, and reports whether it met
      an entry of `sid` and whether it deleted one. */
  method WalkDown(aces: seq<Ace>, sid: SecurityIdentity, mask: int, granting: bool)
    returns (cur: seq<Ace>, aceFound: bool, doInsert: bool)
    ensures cur == Walk(aces, sid, mask, granting)
    ensures aceFound <==> Count(aces, sid) > 0
    ensures doInsert <==> Tally(aces, sid, !granting) > 0
  {
    cur := aces;
    aceFound := false;
    doInsert := false;
    var i := |aces|;
    assert aces[..i] == aces && aces[i..] == [];
    while i > 0
      invariant 0 <= i <= |aces|
      invariant cur == aces[..i] + Walk(aces[i..], sid, mask, granting)
      invariant aceFound <==> Count(aces[i..], sid) > 0
      invariant doInsert <==> Tally(aces[i..], sid, !granting) > 0
    {
      i := i - 1;
      WalkStep(aces, i, sid, mask, granting);
      LiveEdit(aces, i, sid, mask, granting);
      if aces[i].sid == sid {
        if aces[i].granting == granting {
          cur := UpdateAt(cur, i, mask);
        } else {
          cur := DeleteAt(cur, i);
          doInsert := true;
        }
        aceFound := true;
      }
    }
    assert aces[0..] == aces;
  }

  /** `doSetPermission` on the ACL the provider holds under `oid`: reconcile
      the list of `scope`, then one `updateAcl` call. As in `doSetPermission`, the
      polarity defaults to granting and the insert index to 0. */
  function SetPermission(s: Store, oid: ObjectIdentity, scope: Scope, sid: SecurityIdentity,
                         mask: int, granting: bool := true, index: int := 0): (r: Store)
    requires oid in s.acls
    requires IndexFits(Aces(s.acls[oid], scope), sid, mask, granting, index)
    // `updateAcl` is called exactly once, with this ACL.
    ensures r.updated == s.updated + [oid]
    ensures r.acls.Keys == s.acls.Keys
    // Other ACLs, the other scope and the object identity are untouched.
    ensures forall o :: o in s.acls && o != oid ==> r.acls[o] == s.acls[o]
    ensures Aces(r.acls[oid], Other(scope)) == Aces(s.acls[oid], Other(scope))
    ensures r.acls[oid].oid == s.acls[oid].oid
    ensures Aces(r.acls[oid], scope) == ReconcileAces(Aces(s.acls[oid], scope), sid, mask, granting, index)
  {
    var acl := s.acls[oid];
    UpdateAcl(s, oid, WithAces(acl, scope, ReconcileAces(Aces(acl, scope), sid, mask, granting, index)))
  }

  /** The same, running the walk of `doSetPermission`. */
  method DoSetPermission(s: Store, oid: ObjectIdentity, scope: Scope, sid: SecurityIdentity,
                         mask: int, granting: bool := true, index: int := 0) returns (r: Store)
    requires oid in s.acls
    requires IndexFits(Aces(s.acls[oid], scope), sid, mask, granting, index)
    ensures r == SetPermission(s, oid, scope, sid, mask, granting, index)
  {
    var acl := s.acls[oid];
    var aces, _ := SetPermissionWalk(Aces(acl, scope), sid, mask, granting, index);
    r := UpdateAcl(s, oid, WithAces(acl, scope, aces));
  }
}
