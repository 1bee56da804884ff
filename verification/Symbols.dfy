/** The symbols of a table by address: a sorted list that is built once, and bisection in it. */
module Symbols {
  import opened Memory

  datatype Symbol = Symbol(address: int, name: string)

  /** The order of strings. */
  predicate StringLess(a: string, b: string) {
    b != [] && (a == [] || a[0] < b[0] || (a[0] == b[0] && StringLess(a[1..], b[1..])))
  }

  /** The order of tuples of an address and a name. */
  predicate Less(s: Symbol, t: Symbol) {
    s.address < t.address || (s.address == t.address && StringLess(s.name, t.name))
  }

  /** The strings agree in their first `k` characters, and there `a` ends first or goes on with the
      lesser character. */
  predicate PartsAt(a: string, b: string, k: nat) {
    && k <= |a| && k <= |b| && a[..k] == b[..k]
    && (k == |a| < |b| || (k < |a| && k < |b| && a[k] < b[k]))
  }

  ghost predicate Lexicographic(a: string, b: string) {
    exists k: nat :: PartsAt(a, b, k)
  }

  /** The order of strings is the lexicographic order. */
  lemma {:induction false} StringLessIffLexicographic(a: string, b: string)
    ensures StringLess(a, b) <==> Lexicographic(a, b)
    decreases |a|
  {
    if a != [] && b != [] && a[0] == b[0] {
      StringLessIffLexicographic(a[1..], b[1..]);
      if Lexicographic(a[1..], b[1..]) {
        var k: nat :| PartsAt(a[1..], b[1..], k);
        assert a[..k + 1] == [a[0]] + a[1..][..k] && b[..k + 1] == [b[0]] + b[1..][..k];
        assert PartsAt(a, b, k + 1);
      }
      if Lexicographic(a, b) {
        var k: nat :| PartsAt(a, b, k);
        assert k > 0 && a[1..][..k - 1] == a[..k][1..] && b[1..][..k - 1] == b[..k][1..];
        assert PartsAt(a[1..], b[1..], k - 1);
      }
    } else {
      if StringLess(a, b) { assert PartsAt(a, b, 0); }
      if Lexicographic(a, b) {
        var k: nat :| PartsAt(a, b, k);
        assert k > 0 ==> a[..k][0] == b[..k][0];
      }
    }
  }

  lemma {:induction false} StringsCompare(a: string, b: string)
    ensures StringLess(a, b) || a == b || StringLess(b, a)
    ensures !(StringLess(a, b) && StringLess(b, a)) && !StringLess(a, a)
  {
    if a != [] && b != [] && a[0] == b[0] {
      StringsCompare(a[1..], b[1..]);
      StringsCompare(a[1..], a[1..]);
      assert a == [a[0]] + a[1..] && b == [b[0]] + b[1..];
    } else if a != [] {
      StringsCompare(a[1..], a[1..]);
    }
  }

  lemma {:induction false} StringLessTransitive(a: string, b: string, c: string)
    requires StringLess(a, b) && StringLess(b, c)
    ensures StringLess(a, c)
  {
    if a != [] && a[0] == b[0] == c[0] {
      StringLessTransitive(a[1..], b[1..], c[1..]);
    }
  }

  lemma {:induction false} LessTransitive(s: Symbol, t: Symbol, u: Symbol)
    requires Less(s, t) && Less(t, u)
    ensures Less(s, u)
  {
    if s.address == t.address == u.address { StringLessTransitive(s.name, t.name, u.name); }
  }

  predicate Ascending(index: seq<Symbol>) {
    forall i, j :: 0 <= i < j < |index| ==> Less(index[i], index[j])
  }

  /** The sorted list of all symbols of a table. */
  ghost predicate IsIndex(index: seq<Symbol>, symbols: map<string, int>) {
    Ascending(index) && forall s :: s in index <==> s.name in symbols && symbols[s.name] == s.address
  }

  /** Two ascending lists of the same symbols are the same list. */
  lemma {:induction false} AscendingIsUnique(a: seq<Symbol>, b: seq<Symbol>)
    requires Ascending(a) && Ascending(b) && forall s :: s in a <==> s in b
    ensures a == b
  {
    if a == [] || b == [] {
      if a != [] { HoldsFirst(a); }
      if b != [] { HoldsFirst(b); }
    } else {
      FirstIsLeast(a, b[0]);
      FirstIsLeast(b, a[0]);
      Irreflexive(a[0], b[0]);
      forall s ensures s in a[1..] <==> s in b[1..] {
        RestHolds(a, s);
        RestHolds(b, s);
      }
      AscendingIsUnique(a[1..], b[1..]);
      assert a == [a[0]] + a[1..] && b == [b[0]] + b[1..];
    }
  }

  lemma HoldsFirst(a: seq<Symbol>)
    requires a != []
    ensures a[0] in a
  {
  }

  lemma {:induction false} FirstIsLeast(a: seq<Symbol>, s: Symbol)
    requires Ascending(a) && s in a
    ensures s == a[0] || Less(a[0], s)
  {
    var i :| 0 <= i < |a| && a[i] == s;
  }

  lemma {:induction false} Irreflexive(s: Symbol, t: Symbol)
    ensures !(Less(s, t) && Less(t, s)) && !Less(s, s)
  {
    StringsCompare(s.name, t.name);
    StringsCompare(s.name, s.name);
  }

  lemma {:induction false} RestHolds(a: seq<Symbol>, s: Symbol)
    requires Ascending(a) && a != []
    ensures s in a[1..] <==> s in a && s != a[0]
  {
    Irreflexive(a[0], a[0]);
    if s in a && s != a[0] {
      var i :| 0 <= i < |a| && a[i] == s;
      assert a[1..][i - 1] == s;
    }
    if s in a[1..] {
      var i :| 0 <= i < |a[1..]| && a[1..][i] == s;
      assert Less(a[0], a[i + 1]);
    }
  }

  /** `bisect_left(index, (address, ""))`. */
  method BisectLeft(index: seq<Symbol>, address: int) returns (i: nat)
    requires Ascending(index)
    ensures i <= |index|
    ensures forall j :: 0 <= j < i ==> index[j].address < address
    ensures forall j :: i <= j < |index| ==> address <= index[j].address
  {
    var lo, hi := 0, |index|;
    while lo < hi
      invariant 0 <= lo <= hi <= |index|
      invariant forall j :: 0 <= j < lo ==> index[j].address < address
      invariant forall j :: hi <= j < |index| ==> address <= index[j].address
    {
      var mid := (lo + hi) / 2;
      if Less(index[mid], Symbol(address, "")) {
        forall j | 0 <= j <= mid ensures index[j].address < address {
          assert j == mid || Less(index[j], index[mid]);
        }
        lo := mid + 1;
      } else {
        forall j | mid <= j < |index| ensures address <= index[j].address {
          assert j == mid || Less(index[mid], index[j]);
        }
        hi := mid;
      }
    }
    return lo;
  }

  /** Puts a symbol into a sorted list. */
  method Insert(index: seq<Symbol>, s: Symbol) returns (r: seq<Symbol>)
    requires Ascending(index) && s !in index
    ensures Ascending(r) && forall t :: t in r <==> t in index || t == s
  {
    var i := 0;
    while i < |index| && Less(index[i], s)
      invariant i <= |index| && forall j :: 0 <= j < i ==> Less(index[j], s)
    {
      i := i + 1;
    }
    r := index[..i] + [s] + index[i..];
    if i < |index| { NotLess(s, index[i]); }
    forall j | i <= j < |index| ensures Less(s, index[j]) {
      if i < j { LessTransitive(s, index[i], index[j]); }
    }
    forall t ensures t in r <==> t in index || t == s {
      assert index == index[..i] + index[i..];
    }
  }

  lemma {:induction false} NotLess(s: Symbol, t: Symbol)
    requires !Less(t, s) && s != t
    ensures Less(s, t)
  {
    StringsCompare(s.name, t.name);
  }

  /** `sorted` over the symbols of a table. */
  method SortSymbols(symbols: map<string, int>) returns (index: seq<Symbol>)
    ensures IsIndex(index, symbols)
  {
    index := [];
    var left := symbols.Keys;
    while left != {}
      invariant left <= symbols.Keys && Ascending(index)
      invariant forall s :: s in index <==> s.name in symbols.Keys - left && symbols[s.name] == s.address
      decreases |left|
    {
      var name :| name in left;
      index := Insert(index, Symbol(symbols[name], name));
      left := left - {name};
    }
  }

  function Names(symbols: seq<Symbol>): (names: seq<string>)
    ensures |names| == |symbols| && forall i :: 0 <= i < |symbols| ==> names[i] == symbols[i].name
  {
    seq(|symbols|, i requires 0 <= i < |symbols| => symbols[i].name)
  }

  /** Symbols by address, and those at one address by name. */
  ghost predicate InOrder(found: seq<Symbol>) {
    forall i, j :: 0 <= i < j < |found| ==>
      || found[i].address < found[j].address
      || (found[i].address == found[j].address && Lexicographic(found[i].name, found[j].name))
  }

  lemma {:induction false} AscendingIffInOrder(found: seq<Symbol>)
    ensures Ascending(found) <==> InOrder(found)
  {
    forall i, j | 0 <= i < j < |found|
      ensures StringLess(found[i].name, found[j].name) <==> Lexicographic(found[i].name, found[j].name)
    {
      StringLessIffLexicographic(found[i].name, found[j].name);
    }
  }

  /** The symbols of a table from `offset` to `offset + size`, in order. */
  ghost predicate Located(found: seq<Symbol>, symbols: map<string, int>, offset: int, size: int) {
    InOrder(found) && forall s :: s in found <==>
      s.name in symbols && symbols[s.name] == s.address && offset <= s.address <= offset + size
  }

  /** There is only one answer to a query, whenever it is asked. */
  lemma {:induction false} LocatedIsUnique(a: seq<Symbol>, b: seq<Symbol>, symbols: map<string, int>, offset: int,
                                           size: int)
    requires Located(a, symbols, offset, size) && Located(b, symbols, offset, size)
    ensures a == b
  {
    AscendingIffInOrder(a);
    AscendingIffInOrder(b);
    AscendingIsUnique(a, b);
  }

  lemma {:induction false} SliceIsLocated(index: seq<Symbol>, symbols: map<string, int>, offset: int, size: int,
                                          from: nat, to: nat)
    requires IsIndex(index, symbols) && from <= to <= |index|
    requires forall j :: 0 <= j < |index| ==> (from <= j < to <==> offset <= index[j].address <= offset + size)
    ensures Located(index[from..to], symbols, offset, size)
  {
    AscendingIffInOrder(index[from..to]);
    forall s | s in index && offset <= s.address <= offset + size ensures s in index[from..to] {
      var j :| 0 <= j < |index| && index[j] == s;
      assert index[from..to][j - from] == s;
    }
    forall s | s in index[from..to] ensures s in index && offset <= s.address <= offset + size {
      var j :| 0 <= j < to - from && index[from..to][j] == s;
      assert index[from + j] == s;
    }
  }

  class SymbolTable {
    /** The table; it does not change. */
    const symbols: map<string, int>
    var sortSymbols: seq<Symbol>

    constructor (symbols: map<string, int>)
      ensures this.symbols == symbols && Valid()
    {
      this.symbols, sortSymbols := symbols, [];
    }

    ghost predicate Valid()
      reads this
    {
      sortSymbols == [] || IsIndex(sortSymbols, symbols)
    }

    /** `get_symbols_by_location`: exactly the symbols in the range, each once and in order,
        whether the list was there already or not. None stands for the ValueError. */
    method GetSymbolsByLocation(offset: int, size: int) returns (names: Option<seq<string>>, ghost found: seq<Symbol>)
      requires Valid()
      modifies this
      ensures Valid()
      ensures names.None? <==> size < 0
      ensures names.Some? ==> Located(found, symbols, offset, size) && names.value == Names(found)
    {
      if size < 0 {
        return None, [];
      }
      if sortSymbols == [] {
        sortSymbols := SortSymbols(symbols);
      }
      var first := BisectLeft(sortSymbols, offset);
      var result, out := first, [];
      while result < |sortSymbols| && offset <= sortSymbols[result].address <= offset + size
        invariant first <= result <= |sortSymbols| && out == Names(sortSymbols[first..result])
        invariant forall j :: first <= j < result ==> sortSymbols[j].address <= offset + size
      {
        assert sortSymbols[first..result + 1] == sortSymbols[first..result] + [sortSymbols[result]];
        out, result := out + [sortSymbols[result].name], result + 1;
      }
      forall j | result <= j < |sortSymbols| ensures offset + size < sortSymbols[j].address {
        assert result == j || Less(sortSymbols[result], sortSymbols[j]);
      }
      SliceIsLocated(sortSymbols, symbols, offset, size, first, result);
      return Some(out), sortSymbols[first..result];
    }
  }
}
