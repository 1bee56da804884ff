/** The dictionary objects themselves: each holds the data of one level and the dictionaries
    of the levels below, and updates them in place. */
module HierarchicalDicts {
  import opened Configuration
  import opened Memory

  const CONFIG_SEPARATOR := '.'

  /** What `_setitem` stores at a key: data, or a whole dictionary. */
  datatype Item = Data(value: Value) | Dict(dict: HierarchicalDict)

  ghost function Without(m: map<string, Value>, left: set<string>): map<string, Value> {
    map k | k in m && k !in left :: m[k]
  }

  lemma OneMore(m: map<string, Value>, left: set<string>, k: string)
    requires k in left && left <= m.Keys
    ensures Without(m, left)[k := m[k]] == Without(m, left - {k})
  {
  }

  lemma SameUpdate(t: Tree, head: string)
    requires head in t.sub
    ensures t.(sub := t.sub[head := t.sub[head]]) == t
  {
  }

  class HierarchicalDict {
    const separator: char
    var data: map<string, Value>
    var subdict: map<string, HierarchicalDict>
    /** This dictionary and all below it. */
    ghost var repr: set<object>
    /** What they store. */
    ghost var tree: Tree

    /** No dictionary is below another one twice, and the tree is what the fields hold. */
    ghost predicate Valid()
      reads this, repr
      decreases repr
    {
      && this in repr && WellFormed(tree, separator) && tree.data == data && tree.sub.Keys == subdict.Keys
      && (forall k :: k in subdict ==> Owns(subdict[k]) && tree.sub[k] == subdict[k].tree)
      && (forall k, l :: k in subdict && l in subdict && k != l ==> Apart(subdict[k], subdict[l]))
    }

    ghost predicate Owns(d: HierarchicalDict)
      reads this, repr
      requires this in repr
      decreases repr, d
    {
      d in repr && d.repr <= repr && this !in d.repr && d.separator == separator && d.Valid()
    }

    static ghost predicate Apart(d: HierarchicalDict, e: HierarchicalDict)
      reads d, e
    {
      d.repr !! e.repr
    }

    /** The dictionaries of this level but the one at `head`, and all below them. */
    ghost function Others(head: string): set<object>
      reads this, set k | k in subdict && k != head :: subdict[k]
    {
      set k, o | k in subdict && k != head && o in subdict[k].repr :: o
    }

    /** Those dictionaries are whole, lie in `others`, and the tree says what they hold. What
        happens outside `others` cannot change that. */
    ghost predicate OthersValid(head: string, others: set<object>)
      reads this, others
    {
      && (forall k :: k != head ==> (k in tree.sub <==> k in subdict))
      && (forall k :: k in subdict && k != head ==>
            && subdict[k] in others && subdict[k].repr <= others && this !in subdict[k].repr
            && subdict[k].separator == separator && subdict[k].Valid() && tree.sub[k] == subdict[k].tree)
      && (forall k, l :: k in subdict && l in subdict && k != l && k != head && l != head ==>
            subdict[k].repr !! subdict[l].repr)
    }

    /** Valid but for what is stored at `head`, where `sub` can be stored. */
    ghost predicate Fits(head: string, sub: HierarchicalDict, others: set<object>)
      reads this, others, sub, sub.repr
    {
      && this in repr && WellFormed(tree, separator) && tree.data == data
      && separator !in head && others <= repr && OthersValid(head, others)
      && sub.Valid() && sub.separator == separator && sub.repr !! others + {this}
    }

    lemma {:induction false} OthersOf(head: string)
      requires Valid()
      ensures Others(head) <= repr - {this} && OthersValid(head, Others(head))
      ensures head in subdict ==> subdict[head].repr !! Others(head)
    {
      forall k | k in subdict && k != head ensures subdict[k].repr <= Others(head) && subdict[k] in subdict[k].repr {
        assert Owns(subdict[k]) && subdict[k].Valid();
      }
      if head in subdict {
        forall k | k in subdict && k != head ensures subdict[k].repr !! subdict[head].repr {
          assert Apart(subdict[k], subdict[head]);
        }
      }
      forall k, l | k in subdict && l in subdict && k != l ensures subdict[k].repr !! subdict[l].repr {
        assert Apart(subdict[k], subdict[l]);
      }
    }

    lemma {:induction false} SubFits(head: string) returns (others: set<object>)
      requires Valid() && separator !in head && head in subdict
      ensures Fits(head, subdict[head], others) && subdict[head].repr <= repr
      ensures head in tree.sub && subdict[head].tree == tree.sub[head]
    {
      others := Others(head);
      OthersOf(head);
      assert Owns(subdict[head]);
    }

    constructor Empty(separator: char)
      ensures Valid() && fresh(repr) && tree == EMPTY && this.separator == separator
    {
      this.separator, data, subdict, tree := separator, map[], map[], EMPTY;
      repr := {this};
    }

    /** Takes in what has become of the dictionary at `head`. */
    ghost method Refresh(head: string, others: set<object>)
      requires head in subdict && Fits(head, subdict[head], others)
      modifies this`repr, this`tree
      ensures Valid() && repr == old(repr) + subdict[head].repr
      ensures tree == old(tree).(sub := old(tree).sub[head := subdict[head].tree])
    {
      var sub := subdict[head];
      repr := repr + sub.repr;
      tree := tree.(sub := tree.sub[head := sub.tree]);
      WholeAgain(head, sub, others);
    }

    /** A dictionary is whole when the one at `head` fits and is in its tree. */
    lemma {:induction false} WholeAgain(head: string, sub: HierarchicalDict, others: set<object>)
      requires head in subdict && sub == subdict[head] && Fits(head, sub, others)
      requires sub.repr <= repr && head in tree.sub && tree.sub[head] == sub.tree
      ensures Valid()
    {
      assert sub in sub.repr;
      forall k | k in subdict ensures Owns(subdict[k]) && tree.sub[k] == subdict[k].tree {
      }
      forall k, l | k in subdict && l in subdict && k != l ensures Apart(subdict[k], subdict[l]) {
      }
    }

    /** This leaves a dictionary alone that does not hold this one. */
    ghost method RefreshBeside(head: string, others: set<object>, b: HierarchicalDict)
      requires head in subdict && Fits(head, subdict[head], others)
      requires b.Valid() && this !in b.repr
      modifies this`repr, this`tree
      ensures Valid() && repr == old(repr) + subdict[head].repr
      ensures tree == old(tree).(sub := old(tree).sub[head := subdict[head].tree])
      ensures b.Valid() && unchanged(b)
    {
      assert b in b.repr;
      Refresh(head, others);
    }

    /** Stores a dictionary of the level below. */
    method Attach(head: string, sub: HierarchicalDict, ghost others: set<object>)
      requires Fits(head, sub, others)
      modifies this
      ensures Valid() && repr == old(repr) + sub.repr && sub.repr == old(sub.repr)
      ensures tree == old(tree).(sub := old(tree).sub[head := old(sub.tree)])
    {
      subdict := subdict[head := sub];
      assert OthersValid(head, others);
      Refresh(head, others);
    }

    /** The flat dictionary from full paths to values. */
    ghost function Contents(): map<string, Value>
      reads this
    {
      Flat(tree, separator)
    }

    /** Built from a flat dictionary, it has that dictionary as its contents. */
    constructor FromMap(initial: map<string, Value>, separator: char)
      ensures Valid() && fresh(repr) && Contents() == initial && this.separator == separator
    {
      this.separator, data, subdict, tree := separator, map[], map[], EMPTY;
      repr := {this};
      new;
      var left := initial.Keys;
      SameFlat(EMPTY, separator, map[]);
      while left != {}
        invariant left <= initial.Keys && Valid() && fresh(repr) && Contents() == Without(initial, left)
        decreases |left|
      {
        var k :| k in left;
        SetItem(k, initial[k]);
        OneMore(initial, left, k);
        left := left - {k};
      }
    }

    // ---- reading ----

    /** `__getitem__`; none stands for the KeyError. */
    method GetItem(key: string) returns (v: Option<Value>)
      requires Valid()
      ensures v == Get(tree, separator, key)
      decreases |key|
    {
      if separator in key {
        if Head(key, separator) !in subdict {
          return None;
        }
        v := subdict[Head(key, separator)].GetItem(Tail(key, separator));
      } else {
        v := if key in data then Some(data[key]) else None;
      }
    }

    /** `__contains__`. */
    method HasKey(key: string) returns (present: bool)
      requires Valid()
      ensures present <==> Get(tree, separator, key).Some?
      decreases |key|
    {
      if separator in key {
        if Head(key, separator) !in subdict {
          return false;
        }
        present := subdict[Head(key, separator)].HasKey(Tail(key, separator));
      } else {
        present := key in data;
      }
    }

    /** `generator`: every stored path once, the data of a level before the levels below. */
    method Generate() returns (keys: seq<string>)
      requires Valid()
      ensures NoDuplicates(keys) && forall k :: k in keys <==> Get(tree, separator, k).Some?
      decreases repr
    {
      var own := DataKeys();
      var below: seq<string>, heads := [], subdict.Keys;
      while heads != {}
        invariant heads <= subdict.Keys && KeysUnder(tree, separator, subdict.Keys - heads, below)
        decreases |heads|
      {
        var head :| head in heads;
        var ks := subdict[head].Generate();
        AddSubtree(tree, separator, subdict.Keys - heads, head, below, ks);
        assert subdict.Keys - (heads - {head}) == subdict.Keys - heads + {head};
        below, heads := below + Prefixed(head, separator, ks), heads - {head};
      }
      AllKeys(tree, separator, own, below);
      keys := own + below;
    }

    method DataKeys() returns (keys: seq<string>)
      ensures NoDuplicates(keys) && forall k :: k in keys <==> k in data
    {
      keys := [];
      var left := data.Keys;
      while left != {}
        invariant left <= data.Keys && NoDuplicates(keys)
        invariant forall k :: k in keys <==> k in data.Keys - left
        decreases |left|
      {
        var k :| k in left;
        Disjoint(keys, [k]);
        keys, left := keys + [k], left - {k};
      }
    }

    // ---- writing ----

    /** The dictionary at `head`; a new one, not yet stored, if there is none. */
    method SubDict(head: string) returns (sub: HierarchicalDict, ghost others: set<object>)
      requires Valid() && separator !in head
      ensures Fits(head, sub, others) && fresh(sub.repr - repr)
      ensures head in subdict <==> head in tree.sub
      ensures if head in subdict then sub == subdict[head] && sub.repr <= repr && sub.tree == tree.sub[head]
              else fresh(sub.repr) && sub.tree == EMPTY
    {
      others := Others(head);
      OthersOf(head);
      if head in subdict {
        assert Owns(subdict[head]);
        return subdict[head], others;
      }
      sub := new HierarchicalDict.Empty(separator);
    }

    /** The dictionary an item brings along is whole, and no part of this one. */
    ghost predicate CanTake(item: Item)
      reads this, Brought(item), if item.Dict? then item.dict.repr else {}
    {
      item.Dict? ==> item.dict.Valid() && item.dict.separator == separator && item.dict.repr !! repr
    }

    static ghost function Brought(item: Item): set<object> {
      if item.Dict? then {item.dict} else {}
    }

    static ghost function BroughtRepr(item: Item): set<object>
      reads Brought(item)
    {
      if item.Dict? then item.dict.repr else {}
    }

    static ghost function Stored(t: Tree, sep: char, key: string, item: Item): Tree
      reads Brought(item)
    {
      match item
      case Data(v) => Set(t, sep, key, v)
      case Dict(d) => Splice(t, sep, key, d.tree)
    }

    /** `_setitem`. */
    method SetTo(key: string, item: Item)
      requires Valid() && CanTake(item)
      modifies repr
      ensures Valid() && fresh(repr - old(repr) - old(BroughtRepr(item)))
      ensures tree == old(Stored(tree, separator, key, item))
      decreases |key|, 2
    {
      KeyParts(key, separator);
      if separator in key {
        SetBelow(key, item);
      } else if item.Data? {
        data := data[key := item.value];
        tree := tree.(data := data);
      } else {
        OthersOf(key);
        Attach(key, item.dict, Others(key));
      }
    }

    method SetBelow(key: string, item: Item)
      requires Valid() && CanTake(item) && separator in key
      modifies repr
      ensures Valid() && fresh(repr - old(repr) - old(BroughtRepr(item)))
      ensures tree == old(Stored(tree, separator, key, item))
      decreases |key|, 1
    {
      KeyParts(key, separator);
      SetUnder(Head(key, separator), Tail(key, separator), item);
    }

    /** Stores at `key` in the dictionary at `head`, creating it if it is missing. */
    method SetUnder(head: string, key: string, item: Item)
      requires Valid() && CanTake(item) && separator !in head
      modifies repr
      ensures Valid() && fresh(repr - old(repr) - old(BroughtRepr(item)))
      ensures tree == old(tree.(sub := tree.sub[head := Stored(if head in tree.sub then tree.sub[head] else EMPTY,
                                                                separator, key, item)]))
      decreases |key| + 1, 0
    {
      var sub, others := SubDict(head);
      SetInside(head, sub, others, key, item);
      Attach(head, sub, others);
    }

    method SetInside(head: string, sub: HierarchicalDict, ghost others: set<object>, key: string, item: Item)
      requires Fits(head, sub, others) && CanTake(item) && sub.CanTake(item)
      modifies sub.repr
      ensures Fits(head, sub, others) && fresh(sub.repr - old(sub.repr) - old(BroughtRepr(item)))
      ensures sub.tree == old(Stored(sub.tree, separator, key, item))
      decreases |key|, 3
    {
      sub.SetTo(key, item);
    }

    /** `__setitem__` is storing in the flat dictionary. */
    method SetItem(key: string, value: Value)
      requires Valid()
      modifies repr
      ensures Valid() && fresh(repr - old(repr))
      ensures tree == Set(old(tree), separator, key, value)
      ensures Contents() == old(Contents())[key := value]
    {
      SetFlat(tree, separator, key, value);
      SetTo(key, Data(value));
    }

    /** `splice`: exactly the keys under the path are replaced, by those of the new dictionary,
        which becomes a part of this one. */
    method SpliceAt(key: string, value: HierarchicalDict)
      requires Valid() && value.Valid() && value.separator == separator && value.repr !! repr
      modifies repr
      ensures Valid() && fresh(repr - old(repr) - old(value.repr))
      ensures tree == Splice(old(tree), separator, key, old(value.tree))
      ensures forall k :: Get(tree, separator, k)
                == if Under(k, key, separator) then Get(old(value.tree), separator, Below(k, key, separator))
                   else Get(old(tree), separator, k)
    {
      SpliceGets(tree, separator, key, value.tree);
      SetTo(key, Dict(value));
    }

    /** `__delitem__`. False is the KeyError of a missing key. */
    method DeleteItem(key: string) returns (ok: bool)
      requires Valid()
      modifies repr
      ensures Valid() && fresh(repr - old(repr))
      ensures Delete(old(tree), separator, key) == if ok then Some(tree) else None
      ensures !ok ==> tree == old(tree)
      decreases |key|, 2
    {
      KeyParts(key, separator);
      DeleteIffGet(tree, separator, key);
      if separator in key {
        if Head(key, separator) !in subdict {
          return false;
        }
        ok := DeleteBelow(key);
      } else {
        ok := key in data;
        data := data - {key};
        tree := tree.(data := data);
        assert !ok ==> tree.data == old(tree.data);
      }
    }

    method DeleteBelow(key: string) returns (ok: bool)
      requires Valid() && separator in key && Head(key, separator) in subdict
      modifies repr
      ensures Valid() && fresh(repr - old(repr))
      ensures Delete(old(tree), separator, key) == if ok then Some(tree) else None
      ensures !ok ==> tree == old(tree)
      decreases |key|, 1
    {
      KeyParts(key, separator);
      ok := DeleteUnder(Head(key, separator), Tail(key, separator));
    }

    /** Deletes `key` from the dictionary at `head`. */
    method DeleteUnder(head: string, key: string) returns (ok: bool)
      requires Valid() && separator !in head && head in subdict
      modifies repr
      ensures Valid() && fresh(repr - old(repr))
      ensures head in old(tree).sub
      ensures var s := Delete(old(tree).sub[head], separator, key);
              && (ok <==> s.Some?)
              && tree == if ok then old(tree).(sub := old(tree).sub[head := s.value]) else old(tree)
      decreases |key| + 1, 0
    {
      var sub := subdict[head];
      ghost var others := SubFits(head);
      SameUpdate(tree, head);
      ok := sub.DeleteItem(key);
      Refresh(head, others);
    }

    /** `branch`: the stored dictionary under the path. A missing one is stored empty, and
        another empty one, which is no part of this dictionary, is returned. */
    method BranchAt(key: string) returns (b: HierarchicalDict)
      requires Valid()
      modifies repr
      ensures Valid() && fresh(repr - old(repr))
      ensures (b.tree, tree) == Branch(old(tree), separator, key)
      ensures b.Valid() && this !in b.repr
      ensures if b in old(repr) then b.repr <= repr && b.separator == separator else fresh(b.repr) && b.repr !! repr
      decreases |key|, 2
    {
      KeyParts(key, separator);
      if separator in key && Head(key, separator) in subdict {
        b := BranchBelow(key);
      } else if separator !in key && key in subdict {
        b := subdict[key];
      } else {
        var empty := new HierarchicalDict.Empty(separator);
        SetTo(key, Dict(empty));
        b := new HierarchicalDict.Empty(CONFIG_SEPARATOR);
      }
    }

    method BranchBelow(key: string) returns (b: HierarchicalDict)
      requires Valid() && separator in key && Head(key, separator) in subdict
      modifies repr
      ensures Valid() && fresh(repr - old(repr))
      ensures (b.tree, tree) == Branch(old(tree), separator, key)
      ensures b.Valid() && this !in b.repr
      ensures if b in old(repr) then b.repr <= repr && b.separator == separator else fresh(b.repr) && b.repr !! repr
      decreases |key|, 1
    {
      KeyParts(key, separator);
      b := BranchUnder(Head(key, separator), Tail(key, separator));
    }

    /** The branch at `key` of the dictionary at `head`. */
    method BranchUnder(head: string, key: string) returns (b: HierarchicalDict)
      requires Valid() && separator !in head && head in subdict
      modifies repr
      ensures Valid() && fresh(repr - old(repr))
      ensures head in old(tree).sub
      ensures b.tree == Branch(old(tree).sub[head], separator, key).0
      ensures tree == old(tree).(sub := old(tree).sub[head := Branch(old(tree).sub[head], separator, key).1])
      ensures b.Valid() && this !in b.repr
      ensures if b in old(repr) then b.repr <= repr && b.separator == separator else fresh(b.repr) && b.repr !! repr
      decreases |key| + 1, 0
    {
      var sub := subdict[head];
      ghost var others := SubFits(head);
      b := sub.BranchAt(key);
      assert this !in sub.repr;
      RefreshBeside(head, others, b);
    }

    /** One turn of the loop of `merge`. */
    method MergeItem(key: string, value: HierarchicalDict, item: string, overwrite: bool, ghost before: Tree,
                     ghost done: seq<string>)
      requires Valid() && value.Valid() && value.separator == separator && value.repr !! repr
      requires MergedSoFar(before, tree, value.tree, separator, key, overwrite, done)
      requires item !in done && Get(value.tree, separator, item).Some?
      modifies repr
      ensures Valid() && fresh(repr - old(repr))
      ensures MergedSoFar(before, tree, old(value.tree), separator, key, overwrite, done + [item])
    {
      MergeStep(before, tree, value.tree, separator, key, overwrite, done, item);
      var v := value.GetItem(item);
      SetMerged(Join(key, separator, item), v.value, overwrite);
    }

    method SetMerged(path: string, value: Value, overwrite: bool)
      requires Valid()
      modifies repr
      ensures Valid() && fresh(repr - old(repr))
      ensures tree == if overwrite || Get(old(tree), separator, path) in {None, Some(Null)}
                      then Set(old(tree), separator, path, value) else old(tree)
    {
      var stored := GetItem(path);
      if stored.Some? && stored.value != Null {
        if overwrite {
          SetItem(path, value);
        }
      } else {
        SetItem(path, value);
      }
    }

    /** `merge`: only merged keys change. A merged value wins over a stored one when
        overwriting, and always over a missing or null one. */
    method Merge(key: string, value: HierarchicalDict, overwrite: bool)
      requires Valid() && value.Valid() && value.separator == separator && value.repr !! repr
      modifies repr
      ensures Valid() && fresh(repr - old(repr))
      ensures forall k :: Get(tree, separator, k) == Merged(old(tree), value.tree, separator, key, overwrite, k)
    {
      var items := value.Generate();
      ghost var before := tree;
      for i := 0 to |items|
        invariant Valid() && fresh(repr - old(repr)) && value.Valid() && value.repr !! repr
        invariant MergedSoFar(before, tree, value.tree, separator, key, overwrite, items[..i])
      {
        assert items[i] in items && items[..i + 1] == items[..i] + [items[i]];
        MergeItem(key, value, items[i], overwrite, before, items[..i]);
      }
      assert items[..|items|] == items;
      MergeDone(before, tree, value.tree, separator, key, overwrite, items);
    }
  }
}
