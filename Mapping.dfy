/**
  `TagMapping`: the tag index as an object whose two `defaultdict(set)` fields
  and `dirty` flag its methods update in place. Each method is proved against
  the functions of `TagIndex`.
 */
module Mapping {

  import opened Wrappers
  import opened Text
  import opened Order
  import opened Storage
  import opened TagIndex

  class TagMapping {
    var tags: Index
    var users: Index
    var dirty: bool
    /** Storage key: `STORAGE_KEY` in taggerbot.py, the constructor's `key` in tagger-bot.py. */
    const key: string

    /** Invariant I1, and every tag key lower case. */
    ghost predicate Valid()
      reads this
    {
      Consistent(tags, users) && LowerKeys(tags)
    }

    constructor (key: string)
      ensures Valid()
      ensures tags == map[] && users == map[] && !dirty && this.key == key
    {
      tags, users, dirty := map[], map[], false;
      this.key := key;
    }

    /**
      `load(storage)`: both indices are cleared and rebuilt from the record under
      `key` (replace, not merge), and `dirty` is reset. When a list is stored
      there, `load` raises after clearing.
     */
    method Load(st: Store) returns (ok: bool)
      modifies this
      ensures Valid() && !dirty
      ensures ok <==> Record(st, key).Some?
      ensures ok ==> tags == LoadTags(Record(st, key).value) && users == LoadUsers(Record(st, key).value)
      ensures !ok ==> tags == map[] && users == map[]
    {
      var v := Get(st, key, Object(map[]));
      tags, users, dirty := map[], map[], false;
      if v.Array? {
        return false;
      }
      var d := v.entries;
      var done: set<string> := {};
      var rest := d.Keys;
      LoadNothing(d);
      while rest != {}
        invariant rest <= d.Keys && done == d.Keys - rest
        invariant tags == LoadTags(Restrict(d, done)) && users == LoadUsers(Restrict(d, done))
        invariant !dirty
        decreases rest
      {
        var tag :| tag in rest;
        var k := Lower(tag);
        LoadTagsStep(d, done, tag);
        LoadUsersStep(d, done, tag);
        tags := tags[k := At(tags, k) + d[tag]];
        TagEach(d[tag], k);
        done := done + {tag};
        rest := rest - {tag};
      }
      assert done == d.Keys;
      assert Record(st, key) == Some(d);
      RestrictAll(d);
      LoadConsistent(d);
      ok := true;
    }

    /** The inner loop of `load`: `self.users[user].add(k)` for each user of one record entry. */
    method TagEach(us: set<string>, k: string)
      modifies this`users
      ensures users == Mark(old(users), us, k, true)
    {
      var rest := us;
      ghost var seen: set<string> := {};
      ghost var base := users;
      MarkNothing(base, k, true);
      while rest != {}
        invariant rest <= us && seen == us - rest
        invariant users == Mark(base, seen, k, true)
        decreases rest
      {
        var user :| user in rest;
        MarkStep(base, seen, k, true, user);
        users := users[user := At(users, user) + {k}];
        seen := seen + {user};
        rest := rest - {user};
      }
    }

    /** `store(storage)`: writes the dump under `key` only when dirty, then clears the flag. */
    method Store(st: Store) returns (st': Store)
      modifies this`dirty
      ensures !dirty
      ensures st' == if old(dirty) then st[key := Object(Dump(tags))] else st
    {
      st' := st;
      if dirty {
        st' := st[key := Object(Dump(tags))];
        dirty := false;
      }
    }

    /** `add(user, *ts)` */
    method Add(user: string, ts: seq<string>)
      requires Valid()
      modifies this
      ensures Valid() && dirty
      ensures tags == AddTags(old(tags), user, Elems(ts))
      ensures users == AddUsers(old(users), user, Elems(ts))
    {
      dirty := true;
      ghost var tags0, users0 := tags, users;
      AddNothing(tags0, users0, user);
      assert Elems(ts[..0]) == {};
      for i := 0 to |ts|
        invariant dirty
        invariant tags == AddTags(tags0, user, Elems(ts[..i]))
        invariant users == AddUsers(users0, user, Elems(ts[..i]))
      {
        assert Elems(ts[..i + 1]) == Elems(ts[..i]) + {ts[i]};
        AddTagsStep(tags0, user, Elems(ts[..i]), ts[i]);
        AddUsersStep(users0, user, Elems(ts[..i]), ts[i]);
        var k := Lower(ts[i]);
        tags := tags[k := At(tags, k) + {user}];
        users := users[user := At(users, user) + {k}];
      }
      assert ts[..|ts|] == ts;
      AddKeepsConsistent(tags0, users0, user, Elems(ts));
      AddKeepsLowerKeys(tags0, user, Elems(ts));
    }

    /** `remove(user, *ts)` */
    method Remove(user: string, ts: seq<string>)
      requires Valid()
      modifies this
      ensures Valid() && dirty
      ensures tags == RemoveTags(old(tags), user, Elems(ts))
      ensures users == RemoveUsers(old(users), user, Elems(ts))
    {
      dirty := true;
      ghost var tags0, users0 := tags, users;
      AddNothing(tags0, users0, user);
      assert Elems(ts[..0]) == {};
      for i := 0 to |ts|
        invariant dirty
        invariant tags == RemoveTags(tags0, user, Elems(ts[..i]))
        invariant users == RemoveUsers(users0, user, Elems(ts[..i]))
      {
        assert Elems(ts[..i + 1]) == Elems(ts[..i]) + {ts[i]};
        RemoveTagsStep(tags0, user, Elems(ts[..i]), ts[i]);
        RemoveUsersStep(users0, user, Elems(ts[..i]), ts[i]);
        var k := Lower(ts[i]);
        tags := tags[k := At(tags, k) - {user}];
        users := users[user := At(users, user) - {k}];
      }
      assert ts[..|ts|] == ts;
      RemoveKeepsConsistent(tags0, users0, user, Elems(ts));
      AddKeepsLowerKeys(tags0, user, Elems(ts));
    }

    /**
      `find(tag=..., user=...)` of taggerbot.py: the users of the lowered tag,
      else the tags of the user; `None` (the `KeyError`) when neither is given.
     */
    function Find(tag: Option<string>, user: Option<string>): (r: Option<set<string>>)
      requires Valid()
      reads this
      ensures r.None? <==> tag.None? && user.None?
      ensures tag.Some? ==> forall u :: u in r.value <==> Lower(tag.value) in At(users, u)
      ensures tag.None? && user.Some? ==> forall t :: t in r.value <==> user.value in At(tags, t)
    {
      if tag.Some? then Some(At(tags, Lower(tag.value)))
      else if user.Some? then Some(At(users, user.value))
      else None
    }

    /**
      `tag in mapping`: the raw tag is a key, even one whose user set became
      empty; only a lower-case tag can be one.
     */
    function Contains(tag: string): (b: bool)
      requires Valid()
      reads this
      ensures b <==> tag in tags
      ensures b ==> IsLower(tag)
    {
      tag in tags
    }

    /** `find` of tagger-bot.py: the same lookup, returned as a sorted list. */
    method FindSorted(tag: Option<string>, user: Option<string>) returns (r: Option<seq<string>>)
      requires Valid()
      ensures r.None? <==> tag.None? && user.None?
      ensures r.Some? ==> Increasing(r.value) && forall x :: x in r.value <==> x in Find(tag, user).value
    {
      var found := Find(tag, user);
      if found.None? {
        return None;
      }
      var sorted := Sorted(found.value);
      r := Some(sorted);
    }
  }

  /** A mapping that is loaded and stored again without a change writes nothing (the `list` command). */
  method LoadThenStore(st: Store) returns (st': Store)
    ensures st' == st
  {
    var m := new TagMapping(MappingKey);
    var ok := m.Load(st);
    st' := m.Store(st);
  }

  /** After `add`, `store` writes the dump once; a second `store` writes nothing. */
  method StoreTwice(st: Store, user: string, ts: seq<string>) returns (st1: Store, st2: Store)
    requires Record(st, MappingKey).Some?
    ensures var d := Record(st, MappingKey).value;
      st1 == st[MappingKey := Object(Dump(AddTags(LoadTags(d), user, Elems(ts))))]
    ensures st2 == st1
  {
    var m := new TagMapping(MappingKey);
    var ok := m.Load(st);
    m.Add(user, ts);
    st1 := m.Store(st);
    st2 := m.Store(st1);
  }

  /** What `store` writes for a consistent mapping, `load` reads back: the non-empty entries of both indices. */
  lemma PersistRoundTrip(st: Store, key: string, tags: Index, users: Index)
    requires Consistent(tags, users) && LowerKeys(tags)
    ensures var st' := st[key := Object(Dump(tags))];
      && Record(st', key) == Some(Dump(tags))
      && LoadTags(Record(st', key).value) == NonEmpty(tags)
      && LoadUsers(Record(st', key).value) == NonEmpty(users)
  {
    RecordAfterPut(st, key, Dump(tags));
    DumpLoadRoundTrip(tags, users);
  }

  /**
    `store` followed by a `load` into a new mapping under the same key: after a
    change the new mapping holds the old one's non-empty entries; without one
    nothing is written.
   */
  method StoreThenLoad(m: TagMapping, st: Store) returns (m2: TagMapping, st': Store)
    requires m.Valid()
    modifies m
    ensures fresh(m2) && m2.key == m.key && m2.Valid() && !m2.dirty
    ensures m.tags == old(m.tags) && m.users == old(m.users) && !m.dirty
    ensures !old(m.dirty) ==> st' == st
    ensures old(m.dirty) ==> st' == st[m.key := Object(Dump(m.tags))]
    ensures old(m.dirty) ==> m2.tags == NonEmpty(m.tags) && m2.users == NonEmpty(m.users)
  {
    ghost var changed := m.dirty;
    st' := m.Store(st);
    m2 := new TagMapping(m.key);
    var ok := m2.Load(st');
    if changed {
      PersistRoundTrip(st, m.key, m.tags, m.users);
    }
  }
}
