/** What a hierarchical configuration dictionary stores, as a tree of levels, and its
    operations on that tree; the tree acts as one flat dictionary from full paths to values. */
module Configuration {
  import opened Memory

  /** A stored value; `Null` is Python's `None`, which some operations treat as absent. */
  datatype Value = Null | Basic(text: string)

  datatype Tree = Tree(data: map<string, Value>, sub: map<string, Tree>)

  const EMPTY := Tree(map[], map[])

  // ---- keys ----

  /** The part of a key before its first separator; all of it if there is none. */
  function Head(key: string, sep: char): string {
    if key == [] || key[0] == sep then [] else [key[0]] + Head(key[1..], sep)
  }

  /** The part of a key after its first separator; nothing if there is none. */
  function Tail(key: string, sep: char): (t: string)
    ensures sep in key ==> |t| < |key|
  {
    if key == [] then [] else if key[0] == sep then key[1..] else Tail(key[1..], sep)
  }

  function Join(head: string, sep: char, tail: string): string {
    head + [sep] + tail
  }

  lemma {:induction false} KeyParts(key: string, sep: char)
    ensures sep !in Head(key, sep)
    ensures sep in key ==> key == Join(Head(key, sep), sep, Tail(key, sep))
  {
    if key != [] && key[0] != sep {
      KeyParts(key[1..], sep);
      if sep in key {
        assert sep in key[1..];
        assert key == [key[0]] + key[1..];
      }
    }
  }

  lemma {:induction false} JoinParts(head: string, sep: char, tail: string)
    requires sep !in head
    ensures var key := Join(head, sep, tail); sep in key && Head(key, sep) == head && Tail(key, sep) == tail
  {
    var key := Join(head, sep, tail);
    assert key[|head|] == sep;
    if head != [] {
      assert key[1..] == Join(head[1..], sep, tail);
      JoinParts(head[1..], sep, tail);
    }
  }

  // ---- what a tree stores ----

  /** No key of the tree holds the separator. */
  ghost predicate WellFormed(t: Tree, sep: char) {
    && (forall k :: k in t.data ==> sep !in k)
    && (forall k :: k in t.sub ==> sep !in k && WellFormed(t.sub[k], sep))
  }

  /** What iterating over the tree yields, with the values: the data of each level under
      the path of that level. */
  ghost function Entries(t: Tree, sep: char): set<(string, Value)> {
    (set k | k in t.data :: (k, t.data[k]))
    + (set k, e | k in t.sub && e in Entries(t.sub[k], sep) :: (Join(k, sep, e.0), e.1))
  }

  /** `__getitem__`; none stands for the KeyError. */
  function Get(t: Tree, sep: char, key: string): Option<Value>
    decreases |key|
  {
    if sep in key then
      if Head(key, sep) in t.sub then Get(t.sub[Head(key, sep)], sep, Tail(key, sep)) else None
    else if key in t.data then Some(t.data[key]) else None
  }

  /** Lookup and iteration agree: the lookup of a path finds exactly the value that
      iteration yields with it. */
  lemma {:induction false} GetIffEntry(t: Tree, sep: char, key: string, v: Value)
    requires WellFormed(t, sep)
    ensures Get(t, sep, key) == Some(v) <==> (key, v) in Entries(t, sep)
    decreases |key|
  {
    if sep in key {
      var head, tail := Head(key, sep), Tail(key, sep);
      KeyParts(key, sep);
      if head in t.sub {
        GetIffEntry(t.sub[head], sep, tail, v);
        if Get(t, sep, key) == Some(v) {
          assert (tail, v) in Entries(t.sub[head], sep);
          assert (Join(head, sep, (tail, v).0), (tail, v).1) == (key, v);
        }
      }
      if (key, v) in Entries(t, sep) {
        var k, e :| k in t.sub && e in Entries(t.sub[k], sep) && (key, v) == (Join(k, sep, e.0), e.1);
        JoinParts(k, sep, e.0);
        assert k == head && e == (tail, v);
      }
    } else {
      forall k, e | k in t.sub && e in Entries(t.sub[k], sep) ensures Join(k, sep, e.0) != key {
        JoinParts(k, sep, e.0);
      }
    }
  }

  /** The flat view: the dictionary from full paths to values that iteration gives. */
  ghost function Flat(t: Tree, sep: char): map<string, Value> {
    map k | k in (set e | e in Entries(t, sep) :: e.0) && Get(t, sep, k).Some? :: Get(t, sep, k).value
  }

  lemma {:induction false} FlatGet(t: Tree, sep: char, key: string)
    requires WellFormed(t, sep)
    ensures Get(t, sep, key) == if key in Flat(t, sep) then Some(Flat(t, sep)[key]) else None
  {
    if Get(t, sep, key).Some? {
      var v := Get(t, sep, key).value;
      GetIffEntry(t, sep, key, v);
      assert (key, v) in Entries(t, sep) && (key, v).0 == key;
    }
  }

  /** Trees with the same lookups have the same flat view. */
  lemma {:induction false} SameFlat(t: Tree, sep: char, m: map<string, Value>)
    requires WellFormed(t, sep)
    requires forall k :: Get(t, sep, k) == if k in m then Some(m[k]) else None
    ensures Flat(t, sep) == m
  {
    forall k ensures (k in Flat(t, sep) <==> k in m) && (k in m ==> Flat(t, sep)[k] == m[k]) {
      FlatGet(t, sep, k);
    }
  }

  // ---- the operations ----

  /** `_setitem` for data. */
  function Set(t: Tree, sep: char, key: string, v: Value): Tree
    decreases |key|
  {
    if sep in key then
      var head := Head(key, sep);
      t.(sub := t.sub[head := Set(if head in t.sub then t.sub[head] else EMPTY, sep, Tail(key, sep), v)])
    else t.(data := t.data[key := v])
  }

  /** `_setitem` for a subtree, which is `splice`. */
  function Splice(t: Tree, sep: char, key: string, s: Tree): Tree
    decreases |key|
  {
    if sep in key then
      var head := Head(key, sep);
      t.(sub := t.sub[head := Splice(if head in t.sub then t.sub[head] else EMPTY, sep, Tail(key, sep), s)])
    else t.(sub := t.sub[key := s])
  }

  /** `__delitem__`; none stands for the KeyError. */
  function Delete(t: Tree, sep: char, key: string): Option<Tree>
    decreases |key|
  {
    if sep in key then
      var head := Head(key, sep);
      if head !in t.sub then None
      else
        var s := Delete(t.sub[head], sep, Tail(key, sep));
        if s.None? then None else Some(t.(sub := t.sub[head := s.value]))
    else if key in t.data then Some(t.(data := t.data - {key})) else None
  }

  /** `__contains__`. */
  predicate Contains(t: Tree, sep: char, key: string)
    decreases |key|
  {
    if sep in key then Head(key, sep) in t.sub && Contains(t.sub[Head(key, sep)], sep, Tail(key, sep))
    else key in t.data
  }

  /** `branch`: the subtree returned and the tree afterwards. A missing subtree is created
      empty, and an empty tree of its own is returned. */
  function Branch(t: Tree, sep: char, key: string): (Tree, Tree)
    decreases |key|
  {
    if sep in key then
      var head := Head(key, sep);
      if head in t.sub then
        var (b, s) := Branch(t.sub[head], sep, Tail(key, sep));
        (b, t.(sub := t.sub[head := s]))
      else (EMPTY, Splice(t, sep, key, EMPTY))
    else if key in t.sub then (t.sub[key], t)
    else (EMPTY, Splice(t, sep, key, EMPTY))
  }

  // ---- the operations on the flat view ----

  lemma {:induction false} EmptyGet(sep: char, key: string)
    ensures Get(EMPTY, sep, key) == None && WellFormed(EMPTY, sep)
  {
  }

  lemma {:induction false} SetGet(t: Tree, sep: char, key: string, v: Value, k: string)
    requires WellFormed(t, sep)
    ensures WellFormed(Set(t, sep, key, v), sep)
    ensures Get(Set(t, sep, key, v), sep, k) == if k == key then Some(v) else Get(t, sep, k)
    decreases |key|
  {
    KeyParts(key, sep);
    KeyParts(k, sep);
    if sep in key {
      var head := Head(key, sep);
      EmptyGet(sep, Tail(k, sep));
      SetGet(if head in t.sub then t.sub[head] else EMPTY, sep, Tail(key, sep), v, Tail(k, sep));
    }
  }

  /** Storing a value is storing it in the flat view. */
  lemma {:induction false} SetFlat(t: Tree, sep: char, key: string, v: Value)
    requires WellFormed(t, sep)
    ensures WellFormed(Set(t, sep, key, v), sep)
    ensures Flat(Set(t, sep, key, v), sep) == Flat(t, sep)[key := v]
  {
    SetGet(t, sep, key, v, key);
    forall k
      ensures Get(Set(t, sep, key, v), sep, k)
              == if k in Flat(t, sep)[key := v] then Some(Flat(t, sep)[key := v][k]) else None
    {
      SetGet(t, sep, key, v, k);
      FlatGet(t, sep, k);
    }
    SameFlat(Set(t, sep, key, v), sep, Flat(t, sep)[key := v]);
  }

  lemma {:induction false} ContainsIffGet(t: Tree, sep: char, key: string)
    ensures Contains(t, sep, key) <==> Get(t, sep, key).Some?
    decreases |key|
  {
    if sep in key && Head(key, sep) in t.sub {
      ContainsIffGet(t.sub[Head(key, sep)], sep, Tail(key, sep));
    }
  }

  lemma {:induction false} DeleteIffGet(t: Tree, sep: char, key: string)
    requires WellFormed(t, sep)
    ensures Delete(t, sep, key).Some? <==> Get(t, sep, key).Some?
    ensures Delete(t, sep, key).Some? ==> WellFormed(Delete(t, sep, key).value, sep)
    decreases |key|
  {
    KeyParts(key, sep);
    if sep in key && Head(key, sep) in t.sub {
      DeleteIffGet(t.sub[Head(key, sep)], sep, Tail(key, sep));
    }
  }

  lemma {:induction false} DeleteGet(t: Tree, sep: char, key: string, k: string)
    requires WellFormed(t, sep) && Delete(t, sep, key).Some?
    ensures Get(Delete(t, sep, key).value, sep, k) == if k == key then None else Get(t, sep, k)
    decreases |key|
  {
    KeyParts(key, sep);
    KeyParts(k, sep);
    if sep in key && Head(key, sep) in t.sub {
      DeleteGet(t.sub[Head(key, sep)], sep, Tail(key, sep), Tail(k, sep));
    }
  }

  lemma {:induction false} DeletedGets(t: Tree, sep: char, key: string, t': Tree, m: map<string, Value>)
    requires WellFormed(t, sep) && Delete(t, sep, key) == Some(t') && m == Flat(t, sep) - {key}
    ensures WellFormed(t', sep) && forall k :: Get(t', sep, k) == if k in m then Some(m[k]) else None
  {
    DeleteIffGet(t, sep, key);
    forall k ensures Get(t', sep, k) == if k in m then Some(m[k]) else None {
      DeleteGet(t, sep, key, k);
      FlatGet(t, sep, k);
    }
  }

  /** Deleting a key takes it, and no other, out of the flat view. */
  lemma {:induction false} DeleteFlat(t: Tree, sep: char, key: string)
    requires WellFormed(t, sep)
    ensures Delete(t, sep, key).Some? <==> key in Flat(t, sep)
    ensures Delete(t, sep, key).Some? ==> Flat(Delete(t, sep, key).value, sep) == Flat(t, sep) - {key}
  {
    FlatGet(t, sep, key);
    DeleteIffGet(t, sep, key);
    if Delete(t, sep, key).Some? {
      var t', m := Delete(t, sep, key).value, Flat(t, sep) - {key};
      DeletedGets(t, sep, key, t', m);
      SameFlat(t', sep, m);
    }
  }

  /** Whether `k` lies under path `key`, and what is left of it there. */
  predicate Under(k: string, key: string, sep: char) {
    |key| < |k| && k[..|key|] == key && k[|key|] == sep
  }

  function Below(k: string, key: string, sep: char): string
    requires Under(k, key, sep)
  {
    k[|key| + 1..]
  }

  lemma {:induction false} UnderParts(k: string, key: string, sep: char)
    requires sep in key
    ensures Under(k, key, sep)
            <==> sep in k && Head(k, sep) == Head(key, sep) && Under(Tail(k, sep), Tail(key, sep), sep)
    ensures Under(k, key, sep) ==> Below(k, key, sep) == Below(Tail(k, sep), Tail(key, sep), sep)
  {
    KeyParts(key, sep);
    KeyParts(k, sep);
    var head, tail := Head(key, sep), Tail(key, sep);
    if Under(k, key, sep) {
      var rest := k[|head| + 1..];
      UnderSplit(k, head, sep, tail);
      JoinParts(head, sep, rest);
    } else if sep in k && Head(k, sep) == head {
      UnderSplit(k, head, sep, tail);
    }
  }

  lemma {:induction false} UnderSplit(k: string, head: string, sep: char, tail: string)
    ensures var key := Join(head, sep, tail);
            Under(k, key, sep) <==>
            |head| < |k| && k == Join(head, sep, k[|head| + 1..]) && Under(k[|head| + 1..], tail, sep)
    ensures Under(k, Join(head, sep, tail), sep) ==>
              Below(k, Join(head, sep, tail), sep) == Below(k[|head| + 1..], tail, sep)
  {
    var key := Join(head, sep, tail);
    if Under(k, key, sep) {
      assert k[..|head|] == k[..|key|][..|head|] == head;
      assert k[|head|] == k[..|key|][|head|] == sep;
      assert k[|head| + 1..][..|tail|] == k[..|key|][|head| + 1..] == tail;
    }
  }

  lemma {:induction false} UnderSimple(k: string, key: string, sep: char)
    requires sep !in key
    ensures Under(k, key, sep) <==> sep in k && Head(k, sep) == key
    ensures Under(k, key, sep) ==> Below(k, key, sep) == Tail(k, sep)
  {
    KeyParts(k, sep);
    if Under(k, key, sep) {
      assert k == Join(key, sep, k[|key| + 1..]);
      JoinParts(key, sep, k[|key| + 1..]);
    }
  }

  /** A spliced tree replaces exactly the keys under the path. */
  lemma {:induction false} SpliceGet(t: Tree, sep: char, key: string, s: Tree, k: string)
    requires WellFormed(t, sep) && WellFormed(s, sep)
    ensures WellFormed(Splice(t, sep, key, s), sep)
    ensures Get(Splice(t, sep, key, s), sep, k)
            == if Under(k, key, sep) then Get(s, sep, Below(k, key, sep)) else Get(t, sep, k)
    decreases |key|
  {
    KeyParts(key, sep);
    if sep in key {
      var head := Head(key, sep);
      UnderParts(k, key, sep);
      EmptyGet(sep, Tail(k, sep));
      SpliceGet(if head in t.sub then t.sub[head] else EMPTY, sep, Tail(key, sep), s, Tail(k, sep));
    } else {
      UnderSimple(k, key, sep);
    }
  }

  lemma {:induction false} SpliceGets(t: Tree, sep: char, key: string, s: Tree)
    requires WellFormed(t, sep) && WellFormed(s, sep)
    ensures forall k :: Get(Splice(t, sep, key, s), sep, k)
              == if Under(k, key, sep) then Get(s, sep, Below(k, key, sep)) else Get(t, sep, k)
  {
    forall k
      ensures Get(Splice(t, sep, key, s), sep, k)
              == if Under(k, key, sep) then Get(s, sep, Below(k, key, sep)) else Get(t, sep, k)
    {
      SpliceGet(t, sep, key, s, k);
    }
  }

  lemma {:induction false} JoinUnder(key: string, sep: char, k: string)
    ensures Under(Join(key, sep, k), key, sep) && Below(Join(key, sep, k), key, sep) == k
  {
    assert Join(key, sep, k)[..|key|] == key;
  }

  lemma {:induction false} UnderJoin(k: string, key: string, sep: char)
    requires Under(k, key, sep)
    ensures k == Join(key, sep, Below(k, key, sep))
  {
    assert k == k[..|key|] + [k[|key|]] + k[|key| + 1..];
  }

  /** `branch` never changes a lookup. */
  lemma {:induction false} BranchKeeps(t: Tree, sep: char, key: string, k: string)
    requires WellFormed(t, sep)
    ensures WellFormed(Branch(t, sep, key).1, sep)
    ensures Get(Branch(t, sep, key).1, sep, k) == Get(t, sep, k)
    decreases |key|
  {
    KeyParts(key, sep);
    if sep in key && Head(key, sep) in t.sub {
      BranchKeeps(t.sub[Head(key, sep)], sep, Tail(key, sep), Tail(k, sep));
    } else if sep in key || key !in t.sub {
      MissingSplice(t, sep, key, k);
    }
  }

  lemma {:induction false} BranchFlat(t: Tree, sep: char, key: string)
    requires WellFormed(t, sep)
    ensures Flat(Branch(t, sep, key).1, sep) == Flat(t, sep)
  {
    BranchKeeps(t, sep, key, key);
    forall k ensures Get(Branch(t, sep, key).1, sep, k) == if k in Flat(t, sep) then Some(Flat(t, sep)[k]) else None {
      BranchKeeps(t, sep, key, k);
      FlatGet(t, sep, k);
    }
    SameFlat(Branch(t, sep, key).1, sep, Flat(t, sep));
  }

  /** What `branch` returns shows the keys under the path. */
  lemma {:induction false} BranchGet(t: Tree, sep: char, key: string, k: string)
    requires WellFormed(t, sep)
    ensures WellFormed(Branch(t, sep, key).0, sep)
    ensures Get(Branch(t, sep, key).0, sep, k) == Get(t, sep, Join(key, sep, k))
    decreases |key|
  {
    KeyParts(key, sep);
    EmptyGet(sep, k);
    if sep in key {
      var head, tail := Head(key, sep), Tail(key, sep);
      assert Join(key, sep, k) == Join(head, sep, Join(tail, sep, k));
      JoinParts(head, sep, Join(tail, sep, k));
      if head in t.sub {
        BranchGet(t.sub[head], sep, tail, k);
      }
    } else {
      JoinParts(key, sep, k);
    }
  }

  /** Splicing an empty tree where no subtree was changes no lookup. */
  lemma {:induction false} MissingSplice(t: Tree, sep: char, key: string, k: string)
    requires WellFormed(t, sep)
    requires if sep in key then Head(key, sep) !in t.sub else key !in t.sub
    ensures WellFormed(Splice(t, sep, key, EMPTY), sep)
    ensures Get(Splice(t, sep, key, EMPTY), sep, k) == Get(t, sep, k)
  {
    EmptyGet(sep, k);
    SpliceGet(t, sep, key, EMPTY, k);
    if Under(k, key, sep) {
      EmptyGet(sep, Below(k, key, sep));
      if sep in key { UnderParts(k, key, sep); } else { UnderSimple(k, key, sep); }
    }
  }

  // ---- iterating ----

  predicate NoDuplicates(ks: seq<string>) {
    forall i, j :: 0 <= i < j < |ks| ==> ks[i] != ks[j]
  }

  /** The keys of one subtree, each under its path. */
  function Prefixed(head: string, sep: char, ks: seq<string>): (r: seq<string>)
    ensures |r| == |ks| && forall i :: 0 <= i < |ks| ==> r[i] == Join(head, sep, ks[i])
  {
    seq(|ks|, i requires 0 <= i < |ks| => Join(head, sep, ks[i]))
  }

  /** The stored paths whose first part is in `heads`. */
  ghost predicate KeysUnder(t: Tree, sep: char, heads: set<string>, ks: seq<string>) {
    && NoDuplicates(ks)
    && forall k :: k in ks <==> sep in k && Head(k, sep) in heads && Get(t, sep, k).Some?
  }

  lemma {:induction false} AddSubtree(t: Tree, sep: char, heads: set<string>, head: string, ks: seq<string>,
                                      below: seq<string>)
    requires WellFormed(t, sep) && head in t.sub && head !in heads && KeysUnder(t, sep, heads, ks)
    requires NoDuplicates(below) && forall k :: k in below <==> Get(t.sub[head], sep, k).Some?
    ensures KeysUnder(t, sep, heads + {head}, ks + Prefixed(head, sep, below))
  {
    var more := Prefixed(head, sep, below);
    forall k ensures k in more <==> sep in k && Head(k, sep) == head && Get(t, sep, k).Some? {
      if k in more {
        var i :| 0 <= i < |more| && more[i] == k;
        JoinParts(head, sep, below[i]);
      }
      if sep in k && Head(k, sep) == head && Get(t, sep, k).Some? {
        KeyParts(k, sep);
        assert Tail(k, sep) in below;
        var i :| 0 <= i < |below| && below[i] == Tail(k, sep);
        assert more[i] == k;
      }
    }
    forall i, j | 0 <= i < j < |more| ensures more[i] != more[j] {
      JoinParts(head, sep, below[i]);
      JoinParts(head, sep, below[j]);
    }
    Disjoint(ks, more);
  }

  lemma {:induction false} Disjoint(a: seq<string>, b: seq<string>)
    requires NoDuplicates(a) && NoDuplicates(b)
    requires forall k :: k in a ==> k !in b
    ensures NoDuplicates(a + b)
  {
    forall i, j | 0 <= i < j < |a + b| ensures (a + b)[i] != (a + b)[j] {
      if i < |a| <= j {
        assert a[i] in a && b[j - |a|] in b;
      }
    }
  }

  /** The data of a level and the keys of all its subtrees are all keys. */
  lemma {:induction false} AllKeys(t: Tree, sep: char, own: seq<string>, below: seq<string>)
    requires WellFormed(t, sep) && NoDuplicates(own) && forall k :: k in own <==> k in t.data
    requires KeysUnder(t, sep, t.sub.Keys, below)
    ensures NoDuplicates(own + below) && forall k :: k in own + below <==> Get(t, sep, k).Some?
  {
    Disjoint(own, below);
  }

  // ---- merging ----

  /** The lookup of `k` after `value` is merged under `path`. */
  ghost function Merged(t: Tree, value: Tree, sep: char, path: string, overwrite: bool, k: string): Option<Value> {
    if Under(k, path, sep) && Get(value, sep, Below(k, path, sep)).Some?
       && (overwrite || Get(t, sep, k) in {None, Some(Null)})
    then Get(value, sep, Below(k, path, sep))
    else Get(t, sep, k)
  }

  /** The state of a merge after `done`, the items merged so far. */
  ghost predicate MergedSoFar(before: Tree, t: Tree, value: Tree, sep: char, path: string, overwrite: bool,
                              done: seq<string>)
  {
    forall k :: Get(t, sep, k) ==
                if Under(k, path, sep) && Below(k, path, sep) in done
                then Merged(before, value, sep, path, overwrite, k)
                else Get(before, sep, k)
  }

  lemma {:induction false} MergeStep(before: Tree, t: Tree, value: Tree, sep: char, path: string, overwrite: bool,
                                     done: seq<string>, item: string)
    requires WellFormed(t, sep) && MergedSoFar(before, t, value, sep, path, overwrite, done)
    requires item !in done && Get(value, sep, item).Some?
    ensures var key := Join(path, sep, item);
            var t' := if overwrite || Get(t, sep, key) in {None, Some(Null)}
                      then Set(t, sep, key, Get(value, sep, item).value) else t;
            WellFormed(t', sep) && MergedSoFar(before, t', value, sep, path, overwrite, done + [item])
  {
    var key := Join(path, sep, item);
    var v := Get(value, sep, item).value;
    var t' := if overwrite || Get(t, sep, key) in {None, Some(Null)} then Set(t, sep, key, v) else t;
    SetGet(t, sep, key, v, key);
    JoinUnder(path, sep, item);
    forall k
      ensures Get(t', sep, k) == if Under(k, path, sep) && Below(k, path, sep) in done + [item]
                                 then Merged(before, value, sep, path, overwrite, k) else Get(before, sep, k)
    {
      SetGet(t, sep, key, v, k);
      if Under(k, path, sep) {
        UnderJoin(k, path, sep);
      }
    }
  }

  lemma {:induction false} MergeDone(before: Tree, t: Tree, value: Tree, sep: char, path: string, overwrite: bool,
                                     items: seq<string>)
    requires MergedSoFar(before, t, value, sep, path, overwrite, items)
    requires forall k :: k in items <==> Get(value, sep, k).Some?
    ensures forall k :: Get(t, sep, k) == Merged(before, value, sep, path, overwrite, k)
  {
  }
}
