/**
  The abstract state of a `TagMapping`: the index from tag to users, the inverse
  index from user to tags, and what `add`, `remove`, `dump` and `load` make of
  them. `TagMapping`'s methods are proved against these functions.

  Both indices are Python `defaultdict(set)`s: reading an absent key yields the
  empty set (`At`), and writing through one creates the key.
 */
module TagIndex {

  import opened Text

  type Index = map<string, set<string>>

  /** `d[k]` on a `defaultdict(set)`, without the insertion side effect. */
  function At(m: Index, k: string): set<string> {
    if k in m then m[k] else {}
  }

  /** Invariant I1: a user is tagged with a tag exactly when the tag lists the user. */
  ghost predicate Consistent(tags: Index, users: Index) {
    forall t, u :: u in At(tags, t) <==> t in At(users, u)
  }

  /** Every tag key is in lower case. */
  ghost predicate LowerKeys(tags: Index) {
    forall t :: t in tags ==> IsLower(t)
  }

  function Elems(ts: seq<string>): set<string> {
    set t | t in ts
  }

  function LowerAll(ts: set<string>): set<string> {
    set t | t in ts :: Lower(t)
  }

  // ---------------------------------------------------------------- add / remove

  /** Each key of `ks` gains `user` (`d[k].add(user)` for every k), or loses it when `!gain` (`d[k].discard(user)`). */
  function Mark(m: Index, ks: set<string>, user: string, gain: bool): Index {
    map k | k in m.Keys + ks :: if k !in ks then m[k] else if gain then At(m, k) + {user} else At(m, k) - {user}
  }

  /** `tags` after `add(user, *ts)`: each lowered tag gains `user`. */
  function AddTags(tags: Index, user: string, ts: set<string>): Index {
    Mark(tags, LowerAll(ts), user, true)
  }

  /** `users` after `add(user, *ts)`: the user gains every lowered tag (no entry is touched when `ts` is empty). */
  function AddUsers(users: Index, user: string, ts: set<string>): Index {
    if ts == {} then users else users[user := At(users, user) + LowerAll(ts)]
  }

  /** `tags` after `remove(user, *ts)`: each lowered tag loses `user`, and its key stays (or appears). */
  function RemoveTags(tags: Index, user: string, ts: set<string>): Index {
    Mark(tags, LowerAll(ts), user, false)
  }

  /** `users` after `remove(user, *ts)` */
  function RemoveUsers(users: Index, user: string, ts: set<string>): Index {
    if ts == {} then users else users[user := At(users, user) - LowerAll(ts)]
  }

  lemma AddKeepsConsistent(tags: Index, users: Index, user: string, ts: set<string>)
    requires Consistent(tags, users)
    ensures Consistent(AddTags(tags, user, ts), AddUsers(users, user, ts))
  {
    var tags', users' := AddTags(tags, user, ts), AddUsers(users, user, ts);
    forall t, u ensures u in At(tags', t) <==> t in At(users', u) {
      assert u in At(tags, t) <==> t in At(users, u);
    }
  }

  lemma RemoveKeepsConsistent(tags: Index, users: Index, user: string, ts: set<string>)
    requires Consistent(tags, users)
    ensures Consistent(RemoveTags(tags, user, ts), RemoveUsers(users, user, ts))
  {
    var tags', users' := RemoveTags(tags, user, ts), RemoveUsers(users, user, ts);
    forall t, u ensures u in At(tags', t) <==> t in At(users', u) {
      assert u in At(tags, t) <==> t in At(users, u);
    }
  }

  lemma LowerAllIsLower(ts: set<string>)
    ensures forall k :: k in LowerAll(ts) ==> IsLower(k)
  {
    forall k | k in LowerAll(ts) ensures IsLower(k) {
      var t :| t in ts && Lower(t) == k;
      LowerIsLower(t);
    }
  }

  lemma AddKeepsLowerKeys(tags: Index, user: string, ts: set<string>)
    requires LowerKeys(tags)
    ensures LowerKeys(AddTags(tags, user, ts)) && LowerKeys(RemoveTags(tags, user, ts))
  {
    LowerAllIsLower(ts);
  }

  /** After `add`, every given tag (lowered) lists the user and the user lists it; nothing else changes. */
  lemma AddEffect(tags: Index, users: Index, user: string, ts: set<string>)
    ensures forall t :: t in ts ==> user in AddTags(tags, user, ts)[Lower(t)]
    ensures forall t :: t in ts ==> Lower(t) in At(AddUsers(users, user, ts), user)
    ensures forall k :: k !in LowerAll(ts) ==> At(AddTags(tags, user, ts), k) == At(tags, k)
    ensures forall u :: u != user ==> At(AddUsers(users, user, ts), u) == At(users, u)
  {
    forall t | t in ts ensures Lower(t) in LowerAll(ts) {}
  }

  /** Adding the same tags twice is adding them once. */
  lemma AddIdempotent(tags: Index, users: Index, user: string, ts: set<string>)
    ensures AddTags(AddTags(tags, user, ts), user, ts) == AddTags(tags, user, ts)
    ensures AddUsers(AddUsers(users, user, ts), user, ts) == AddUsers(users, user, ts)
  {
  }

  /** Removing the same tags twice is removing them once. */
  lemma RemoveIdempotent(tags: Index, users: Index, user: string, ts: set<string>)
    ensures RemoveTags(RemoveTags(tags, user, ts), user, ts) == RemoveTags(tags, user, ts)
    ensures RemoveUsers(RemoveUsers(users, user, ts), user, ts) == RemoveUsers(users, user, ts)
  {
    var once := RemoveTags(tags, user, ts);
    var twice := RemoveTags(once, user, ts);
    assert twice.Keys == once.Keys;
    forall k | k in once ensures twice[k] == once[k] {}
    if ts != {} {
      var was := At(users, user);
      assert was - LowerAll(ts) - LowerAll(ts) == was - LowerAll(ts);
    }
  }

  /**
    `remove` takes each given tag from the user and the user from it; every tag
    key stays, and the given tags become keys, so `tag in mapping` holds for them.
   */
  lemma RemoveEffect(tags: Index, users: Index, user: string, ts: set<string>)
    ensures forall t :: t in ts ==> Lower(t) in RemoveTags(tags, user, ts)
    ensures forall t :: t in ts ==> user !in RemoveTags(tags, user, ts)[Lower(t)]
    ensures forall t :: t in ts ==> Lower(t) !in At(RemoveUsers(users, user, ts), user)
    ensures tags.Keys <= RemoveTags(tags, user, ts).Keys
    ensures forall k :: k !in LowerAll(ts) ==> At(RemoveTags(tags, user, ts), k) == At(tags, k)
    ensures forall u :: u != user ==> At(RemoveUsers(users, user, ts), u) == At(users, u)
  {
    forall t | t in ts ensures Lower(t) in LowerAll(ts) {}
  }

  /** Removing a pair that is not recorded changes no tag's or user's set. */
  lemma RemoveAbsentIsNoop(tags: Index, users: Index, user: string, ts: set<string>)
    requires Consistent(tags, users)
    requires forall k :: k in LowerAll(ts) ==> user !in At(tags, k)
    ensures forall k :: At(RemoveTags(tags, user, ts), k) == At(tags, k)
    ensures forall u :: At(RemoveUsers(users, user, ts), u) == At(users, u)
  {
    forall k ensures k in LowerAll(ts) ==> k !in At(users, user) {
      assert user in At(tags, k) <==> k in At(users, user);
    }
  }

  lemma LowerAllInsert(ts: set<string>, t: string)
    ensures LowerAll(ts + {t}) == LowerAll(ts) + {Lower(t)}
  {
    forall k | k in LowerAll(ts + {t}) ensures k in LowerAll(ts) + {Lower(t)} {
      var x :| x in ts + {t} && Lower(x) == k;
    }
  }

  lemma MarkStep(m: Index, ks: set<string>, user: string, gain: bool, x: string)
    ensures Mark(m, ks + {x}, user, gain)
         == (var a := Mark(m, ks, user, gain); a[x := if gain then At(a, x) + {user} else At(a, x) - {user}])
  {
    var a := Mark(m, ks, user, gain);
    var lhs, rhs := Mark(m, ks + {x}, user, gain), a[x := if gain then At(a, x) + {user} else At(a, x) - {user}];
    assert lhs.Keys == rhs.Keys;
    forall k | k in lhs ensures lhs[k] == rhs[k] {
      if k == x && x in ks {
        assert At(m, k) + {user} + {user} == At(m, k) + {user};
        assert At(m, k) - {user} - {user} == At(m, k) - {user};
      }
    }
  }

  /** Step lemmas that let the loop of `TagMapping.add`/`remove` take one tag at a time. */
  lemma AddTagsStep(tags: Index, user: string, ts: set<string>, t: string)
    ensures AddTags(tags, user, ts + {t})
         == (var a := AddTags(tags, user, ts); a[Lower(t) := At(a, Lower(t)) + {user}])
  {
    LowerAllInsert(ts, t);
    MarkStep(tags, LowerAll(ts), user, true, Lower(t));
  }

  lemma AddUsersStep(users: Index, user: string, ts: set<string>, t: string)
    ensures AddUsers(users, user, ts + {t})
         == (var b := AddUsers(users, user, ts); b[user := At(b, user) + {Lower(t)}])
  {
    LowerAllInsert(ts, t);
    var was := At(users, user);
    if ts == {} {
      assert ts + {t} == {t};
      assert LowerAll(ts) == {};
      assert was + LowerAll({t}) == was + {Lower(t)};
    } else {
      assert was + (LowerAll(ts) + {Lower(t)}) == was + LowerAll(ts) + {Lower(t)};
    }
  }

  lemma RemoveTagsStep(tags: Index, user: string, ts: set<string>, t: string)
    ensures RemoveTags(tags, user, ts + {t})
         == (var a := RemoveTags(tags, user, ts); a[Lower(t) := At(a, Lower(t)) - {user}])
  {
    LowerAllInsert(ts, t);
    MarkStep(tags, LowerAll(ts), user, false, Lower(t));
  }

  lemma RemoveUsersStep(users: Index, user: string, ts: set<string>, t: string)
    ensures RemoveUsers(users, user, ts + {t})
         == (var b := RemoveUsers(users, user, ts); b[user := At(b, user) - {Lower(t)}])
  {
    LowerAllInsert(ts, t);
    var was := At(users, user);
    if ts == {} {
      assert ts + {t} == {t};
      assert LowerAll(ts) == {};
      assert was - LowerAll({t}) == was - {Lower(t)};
    } else {
      assert was - (LowerAll(ts) + {Lower(t)}) == was - LowerAll(ts) - {Lower(t)};
    }
  }

  // ---------------------------------------------------------------- dump / load

  /** The entries of `m` whose set is not empty. */
  function NonEmpty(m: Index): Index {
    map k | k in m && m[k] != {} :: m[k]
  }

  /** `dump()`: the serialised record, holding only the tags that have users. */
  function Dump(tags: Index): (d: Index)
    ensures forall t :: t in d <==> t in tags && tags[t] != {}
    ensures forall t :: t in d ==> d[t] == tags[t]
    ensures LowerKeys(tags) ==> LowerKeys(d)
  {
    NonEmpty(tags)
  }

  /** The entries of `d` whose key is in `ks` (the part of a record `load` has read so far). */
  function Restrict(d: Index, ks: set<string>): Index {
    map t | t in d && t in ks :: d[t]
  }

  /** Every user that some spelling of tag `k` lists in the record `d`. */
  function Gathered(d: Index, k: string): set<string> {
    set t, u | t in d && u in d[t] && Lower(t) == k :: u
  }

  /** Every user the record `d` lists under some tag. */
  function Holders(d: Index): set<string> {
    set t, u | t in d && u in d[t] :: u
  }

  /** The lowered tags under which the record `d` lists user `u`. */
  function TagsOf(d: Index, u: string): set<string> {
    set t | t in d && u in d[t] :: Lower(t)
  }

  /** `tags` after `load`: keys are the lowered record keys, case variants merged. */
  function LoadTags(d: Index): Index {
    map k | k in LowerAll(d.Keys) :: Gathered(d, k)
  }

  /** `users` after `load`: rebuilt from the record, one entry per user it lists. */
  function LoadUsers(d: Index): Index {
    map u | u in Holders(d) :: TagsOf(d, u)
  }

  /** A loaded mapping satisfies invariant I1 and has lower-case tag keys. */
  lemma LoadConsistent(d: Index)
    ensures Consistent(LoadTags(d), LoadUsers(d))
    ensures LowerKeys(LoadTags(d))
  {
    var tags, users := LoadTags(d), LoadUsers(d);
    forall k, u ensures u in At(tags, k) <==> k in At(users, u) {
      if u in At(tags, k) {
        var t :| t in d && u in d[t] && Lower(t) == k;
        assert u in Holders(d);
        assert k in TagsOf(d, u);
      }
      if k in At(users, u) {
        var t :| t in d && u in d[t] && Lower(t) == k;
        assert k in LowerAll(d.Keys);
        assert u in Gathered(d, k);
      }
    }
    LowerAllIsLower(d.Keys);
  }

  /** `load` merges keys that differ only in case: each stored entry ends up under its lowered key. */
  lemma LoadMergesCase(d: Index, t: string)
    requires t in d
    ensures Lower(t) in LoadTags(d) && d[t] <= LoadTags(d)[Lower(t)]
    ensures forall u :: u in d[t] ==> Lower(t) in LoadUsers(d)[u]
  {
    assert Lower(t) in LowerAll(d.Keys);
    forall u | u in d[t] ensures u in Gathered(d, Lower(t)) && u in Holders(d) && Lower(t) in TagsOf(d, u) {}
  }

  /** Loading a record whose keys are already lower case gives back the record itself as `tags`. */
  lemma LoadLowerRecord(d: Index)
    requires LowerKeys(d)
    ensures LoadTags(d) == d
  {
    var lt := LoadTags(d);
    forall k | k in d ensures k in LowerAll(d.Keys) {
      assert Lower(k) == k;
    }
    forall k | k in LowerAll(d.Keys) ensures k in d {
      var t :| t in d && Lower(t) == k;
    }
    assert lt.Keys == d.Keys;
    forall k | k in d ensures lt[k] == d[k] {
      forall u | u in lt[k] ensures u in d[k] {
        var t :| t in d && u in d[t] && Lower(t) == k;
        assert Lower(t) == t;
      }
      forall u | u in d[k] ensures u in lt[k] {
        assert Lower(k) == k;
      }
    }
  }

  /** The users rebuilt from a dump of a consistent mapping are its non-empty user entries. */
  lemma LoadDumpUsers(tags: Index, users: Index)
    requires Consistent(tags, users) && LowerKeys(tags)
    ensures LoadUsers(Dump(tags)) == NonEmpty(users)
  {
    var d := Dump(tags);
    var lu, ne := LoadUsers(d), NonEmpty(users);
    forall u | u in lu ensures u in ne && lu[u] == ne[u] {
      var t :| t in d && u in d[t];
      assert u in At(tags, t);
      assert t in At(users, u);
      forall k | k in lu[u] ensures k in ne[u] {
        var t' :| t' in d && u in d[t'] && Lower(t') == k;
        assert Lower(t') == t';
        assert u in At(tags, t');
      }
      forall k | k in ne[u] ensures k in lu[u] {
        assert k in At(users, u);
        assert u in At(tags, k);
        assert Lower(k) == k;
      }
    }
    forall u | u in ne ensures u in lu {
      var k :| k in ne[u];
      assert k in At(users, u);
      assert u in At(tags, k);
      assert k in d && u in d[k];
      assert u in Holders(d);
    }
  }

  /**
    Round trip: loading what `dump` wrote restores the mapping's non-empty
    entries, in both indices.
   */
  lemma DumpLoadRoundTrip(tags: Index, users: Index)
    requires Consistent(tags, users) && LowerKeys(tags)
    ensures LoadTags(Dump(tags)) == Dump(tags)
    ensures LoadUsers(Dump(tags)) == NonEmpty(users)
  {
    LoadLowerRecord(Dump(tags));
    LoadDumpUsers(tags, users);
  }

  /** Loading nothing yields empty indices, which is where `load`'s loop starts. */
  lemma LoadNothing(d: Index)
    ensures Restrict(d, {}) == map[]
    ensures LoadTags(map[]) == map[] && LoadUsers(map[]) == map[]
  {
  }

  /** Loading the whole record is loading `d`. */
  lemma RestrictAll(d: Index)
    ensures Restrict(d, d.Keys) == d
  {
  }

  lemma RestrictInsert(d: Index, done: set<string>, t: string)
    requires t in d
    ensures Restrict(d, done + {t}).Keys == Restrict(d, done).Keys + {t}
    ensures Restrict(d, done + {t}) == Restrict(d, done)[t := d[t]]
  {
  }

  lemma GatheredInsert(r: Index, t: string, us: set<string>, k: string)
    requires t !in r
    ensures Gathered(r[t := us], k) == Gathered(r, k) + (if k == Lower(t) then us else {})
  {
    var r' := r[t := us];
    forall u | u in Gathered(r', k) ensures u in Gathered(r, k) + (if k == Lower(t) then us else {}) {
      var x :| x in r' && u in r'[x] && Lower(x) == k;
      if x != t {
        assert x in r && u in r[x];
      }
    }
    forall u | u in Gathered(r, k) ensures u in Gathered(r', k) {
      var x :| x in r && u in r[x] && Lower(x) == k;
      assert x in r' && r'[x] == r[x];
    }
    if k == Lower(t) {
      forall u | u in us ensures u in Gathered(r', k) {
        assert t in r' && u in r'[t];
      }
    }
  }

  lemma LoadTagsAt(r: Index, k: string)
    ensures At(LoadTags(r), k) == Gathered(r, k)
  {
    forall u | u in Gathered(r, k) ensures k in LowerAll(r.Keys) {
      var x :| x in r && u in r[x] && Lower(x) == k;
    }
  }

  /** Reading one more record entry `t` adds its users under its lowered key (`self.tags[tag.lower()].update(users)`). */
  lemma LoadTagsStep(d: Index, done: set<string>, t: string)
    requires t in d && t !in done
    ensures LoadTags(Restrict(d, done + {t}))
         == (var a := LoadTags(Restrict(d, done)); a[Lower(t) := At(a, Lower(t)) + d[t]])
  {
    var r, r' := Restrict(d, done), Restrict(d, done + {t});
    RestrictInsert(d, done, t);
    LowerAllInsert(r.Keys, t);
    var a := LoadTags(r);
    var lhs, rhs := LoadTags(r'), a[Lower(t) := At(a, Lower(t)) + d[t]];
    assert lhs.Keys == rhs.Keys;
    forall k | k in lhs ensures lhs[k] == rhs[k] {
      GatheredInsert(r, t, d[t], k);
      LoadTagsAt(r, k);
    }
  }

  lemma HoldersInsert(r: Index, t: string, us: set<string>)
    requires t !in r
    ensures Holders(r[t := us]) == Holders(r) + us
  {
    var r' := r[t := us];
    forall u | u in Holders(r') ensures u in Holders(r) + us {
      var x :| x in r' && u in r'[x];
      if x != t {
        assert x in r && u in r[x];
      }
    }
    forall u | u in Holders(r) ensures u in Holders(r') {
      var x :| x in r && u in r[x];
      assert x in r' && r'[x] == r[x];
    }
    forall u | u in us ensures u in Holders(r') {
      assert t in r' && u in r'[t];
    }
  }

  lemma TagsOfInsert(r: Index, t: string, us: set<string>, u: string)
    requires t !in r
    ensures TagsOf(r[t := us], u) == TagsOf(r, u) + (if u in us then {Lower(t)} else {})
  {
    var r' := r[t := us];
    forall k | k in TagsOf(r', u) ensures k in TagsOf(r, u) + (if u in us then {Lower(t)} else {}) {
      var x :| x in r' && u in r'[x] && Lower(x) == k;
      if x != t {
        assert x in r && u in r[x];
      }
    }
    forall k | k in TagsOf(r, u) ensures k in TagsOf(r', u) {
      var x :| x in r && u in r[x] && Lower(x) == k;
      assert x in r' && r'[x] == r[x];
    }
    if u in us {
      assert t in r' && u in r'[t];
    }
  }

  lemma LoadUsersAt(r: Index, u: string)
    ensures At(LoadUsers(r), u) == TagsOf(r, u)
  {
    forall k | k in TagsOf(r, u) ensures u in Holders(r) {
      var x :| x in r && u in r[x] && Lower(x) == k;
    }
  }

  /** Reading one more record entry `t` tags each of its users with the lowered key (`self.users[user].add(tag.lower())`). */
  lemma LoadUsersStep(d: Index, done: set<string>, t: string)
    requires t in d && t !in done
    ensures LoadUsers(Restrict(d, done + {t})) == Mark(LoadUsers(Restrict(d, done)), d[t], Lower(t), true)
  {
    var r, r' := Restrict(d, done), Restrict(d, done + {t});
    RestrictInsert(d, done, t);
    HoldersInsert(r, t, d[t]);
    var lhs, rhs := LoadUsers(r'), Mark(LoadUsers(r), d[t], Lower(t), true);
    assert lhs.Keys == rhs.Keys;
    forall u | u in lhs ensures lhs[u] == rhs[u] {
      TagsOfInsert(r, t, d[t], u);
      LoadUsersAt(r, u);
    }
  }

  lemma MarkNothing(m: Index, user: string, gain: bool)
    ensures Mark(m, {}, user, gain) == m
  {
  }

  lemma AddNothing(tags: Index, users: Index, user: string)
    ensures AddTags(tags, user, {}) == tags && RemoveTags(tags, user, {}) == tags
    ensures AddUsers(users, user, {}) == users && RemoveUsers(users, user, {}) == users
  {
    assert LowerAll({}) == {};
    MarkNothing(tags, user, true);
    MarkNothing(tags, user, false);
  }
}
