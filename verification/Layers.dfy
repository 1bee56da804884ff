/** The container of the layers of a context: adding, deleting and naming layers so that
    they always stand on each other without a cycle. */
module Layers {
  import opened Memory

  /** Only translation layers have dependencies. */
  datatype Layer = DataLayer(name: string) | TranslationLayer(name: string, dependencies: seq<string>)

  function Dependencies(l: Layer): seq<string> {
    if l.TranslationLayer? then l.dependencies else []
  }

  datatype LayerError = AlreadyExists | Unmet(missing: seq<string>) | DependedUpon(layer: string) | NoSuchLayer

  function Missing(names: seq<string>, layers: map<string, Layer>): seq<string> {
    if names == [] then []
    else (if names[0] in layers then [] else [names[0]]) + Missing(names[1..], layers)
  }

  lemma {:induction false} MissingNone(names: seq<string>, layers: map<string, Layer>)
    ensures Missing(names, layers) == [] <==> forall d :: d in names ==> d in layers
  {
    if names != [] {
      MissingNone(names[1..], layers);
      assert names == [names[0]] + names[1..];
    }
  }

  /** The missing names are found one by one, in order and each as often as it is asked for. */
  lemma {:induction false} MissingConcat(names: seq<string>, more: seq<string>, layers: map<string, Layer>)
    ensures Missing(names + more, layers) == Missing(names, layers) + Missing(more, layers)
    ensures |more| == 1 ==> Missing(more, layers) == if more[0] in layers then [] else more
  {
    if names == [] {
      assert names + more == more;
    } else {
      assert (names + more)[1..] == names[1..] + more;
      MissingConcat(names[1..], more, layers);
    }
  }

  /** Every layer stands on layers that are there and were added before it; `age` tells when
      each was added. */
  ghost predicate Stacked(layers: map<string, Layer>, age: map<string, nat>) {
    && age.Keys == layers.Keys
    && (forall n :: n in layers ==> layers[n].name == n)
    && (forall n, d :: n in layers && d in Dependencies(layers[n]) ==> d in layers && age[d] < age[n])
  }

  /** A way down through the layers: each name depends on the next. */
  ghost predicate WayDown(layers: map<string, Layer>, names: seq<string>) {
    && (forall i :: 0 <= i < |names| ==> names[i] in layers)
    && (forall i, j :: 0 <= i && j == i + 1 && j < |names| ==> names[j] in Dependencies(layers[names[i]]))
  }

  lemma {:induction false} DownIsOlder(layers: map<string, Layer>, age: map<string, nat>, names: seq<string>, i: nat,
                                       j: nat)
    requires Stacked(layers, age) && WayDown(layers, names) && i < j < |names|
    ensures age[names[j]] < age[names[i]]
    decreases j
  {
    var k := j - 1;
    assert names[j] in Dependencies(layers[names[k]]);
    if i < k { DownIsOlder(layers, age, names, i, k); }
  }

  /** A way down passes no layer twice, so there is no cycle; none is longer than the number
      of layers, so a read that goes from layer to layer comes to an end. */
  lemma {:induction false} WaysDownEnd(layers: map<string, Layer>, age: map<string, nat>, names: seq<string>)
    requires Stacked(layers, age) && WayDown(layers, names)
    ensures forall i, j :: 0 <= i < j < |names| ==> names[i] != names[j]
    ensures |names| <= |layers|
  {
    forall i, j | 0 <= i < j < |names| ensures names[i] != names[j] {
      DownIsOlder(layers, age, names, i, j);
    }
    DistinctFit(names, layers.Keys);
    assert |layers.Keys| == |layers|;
  }

  lemma {:induction false} DistinctFit(names: seq<string>, all: set<string>)
    requires forall i, j :: 0 <= i < j < |names| ==> names[i] != names[j]
    requires forall i :: 0 <= i < |names| ==> names[i] in all
    ensures |names| <= |all|
  {
    if names != [] {
      var n := |names| - 1;
      DistinctFit(names[..n], all - {names[n]});
    }
  }

  // ---- names ----

  function Digits(n: nat): string {
    (if n < 10 then "" else Digits(n / 10)) + ["0123456789"[n % 10]]
  }

  predicate IsDigit(c: char) {
    '0' <= c <= '9'
  }

  /** The number a decimal numeral stands for. */
  function Value(s: string): nat
    requires forall i :: 0 <= i < |s| ==> IsDigit(s[i])
  {
    if s == "" then 0 else assert IsDigit(s[|s| - 1]); 10 * Value(s[..|s| - 1]) + (s[|s| - 1] as int - '0' as int)
  }

  /** `str` of a count: its decimal numeral, without leading zeros. */
  lemma {:induction false} DigitsAreDecimal(n: nat)
    ensures forall i :: 0 <= i < |Digits(n)| ==> IsDigit(Digits(n)[i])
    ensures Value(Digits(n)) == n
    ensures Digits(n) != "" && (Digits(n)[0] == '0' ==> n == 0 && |Digits(n)| == 1)
  {
    var d := Digits(n);
    assert d[|d| - 1] == "0123456789"[n % 10] == '0' + (n % 10) as char;
    if n >= 10 {
      DigitsAreDecimal(n / 10);
      assert d[..|d| - 1] == Digits(n / 10) && d[0] == Digits(n / 10)[0];
    } else {
      assert d[..|d| - 1] == "";
    }
  }

  lemma {:induction false} DigitsDiffer(m: nat, n: nat)
    requires Digits(m) == Digits(n)
    ensures m == n
  {
    DigitsAreDecimal(m);
    DigitsAreDecimal(n);
  }

  function Numbered(prefix: string, count: nat): string {
    prefix + "_" + Digits(count)
  }

  lemma {:induction false} NumberedDiffer(prefix: string, m: nat, n: nat)
    requires Numbered(prefix, m) == Numbered(prefix, n)
    ensures m == n
  {
    assert Numbered(prefix, m)[|prefix| + 1..] == Digits(m);
    assert Numbered(prefix, n)[|prefix| + 1..] == Digits(n);
    DigitsDiffer(m, n);
  }

  /** Different numbers give different names, so names that are all in use are no more than there are. */
  lemma {:induction false} TakenFit(prefix: string, count: nat, all: set<string>)
    requires count >= 1 && forall j :: 1 <= j < count ==> Numbered(prefix, j) in all
    ensures count - 1 <= |all|
  {
    if count > 1 {
      var last := Numbered(prefix, count - 1);
      forall j | 1 <= j < count - 1 ensures Numbered(prefix, j) in all - {last} {
        if Numbered(prefix, j) == last { NumberedDiffer(prefix, j, count - 1); }
      }
      TakenFit(prefix, count - 1, all - {last});
    }
  }

  class LayerContainer {
    var layers: map<string, Layer>
    /** When each layer was added, by a clock that runs with the additions. */
    ghost var age: map<string, nat>
    ghost var clock: nat

    ghost predicate Valid()
      reads this
    {
      Stacked(layers, age) && forall n :: n in age ==> age[n] < clock
    }

    constructor ()
      ensures Valid() && layers == map[]
    {
      layers, age, clock := map[], map[], 0;
    }

    method AddLayer(layer: Layer) returns (error: Option<LayerError>)
      requires Valid()
      modifies this
      ensures Valid()
      ensures error == if layer.name in old(layers) then Some(AlreadyExists)
                       else if Missing(Dependencies(layer), old(layers)) != []
                           then Some(Unmet(Missing(Dependencies(layer), old(layers))))
                       else None
      ensures layers == if error.Some? then old(layers) else old(layers)[layer.name := layer]
    {
      if layer.name in layers {
        return Some(AlreadyExists);
      }
      MissingNone(Dependencies(layer), layers);
      if layer.TranslationLayer? {
        var missingList := Missing(layer.dependencies, layers);
        if missingList != [] {
          return Some(Unmet(missingList));
        }
      }
      layers, age, clock := layers[layer.name := layer], age[layer.name := clock], clock + 1;
      return None;
    }

    method DelLayer(name: string) returns (error: Option<LayerError>)
      requires Valid()
      modifies this
      ensures Valid()
      ensures error == None
              <==> name in old(layers) && forall n :: n in old(layers) ==> name !in Dependencies(old(layers)[n])
      ensures error == Some(NoSuchLayer) <==> name !in old(layers)
      ensures error.Some? && error.value.DependedUpon? ==>
                error.value.layer in old(layers) && name in Dependencies(old(layers)[error.value.layer])
      ensures layers == if error.Some? then old(layers) else old(layers) - {name}
    {
      var left := layers.Keys;
      while left != {}
        invariant left <= layers.Keys && forall n :: n in layers.Keys - left ==> name !in Dependencies(layers[n])
        decreases |left|
      {
        var layer :| layer in left;
        if name in Dependencies(layers[layer]) {
          return Some(DependedUpon(layer));
        }
        left := left - {layer};
      }
      if name !in layers {
        return Some(NoSuchLayer);
      }
      layers, age := layers - {name}, age - {name};
      return None;
    }

    /** The first free name. The loop ends, since the names it passes over are all in use. */
    method FreeLayerName(prefix: string) returns (name: string)
      ensures name !in layers
      ensures prefix !in layers ==> name == prefix
      ensures prefix in layers ==>
                exists k :: 1 <= k && name == prefix + "_" + Digits(k)
                  && forall j :: 1 <= j < k ==> prefix + "_" + Digits(j) in layers
    {
      if prefix !in layers {
        return prefix;
      }
      var count := 1;
      while Numbered(prefix, count) in layers
        invariant 1 <= count && count - 1 <= |layers.Keys|
        invariant forall j :: 1 <= j < count ==> Numbered(prefix, j) in layers
        decreases |layers.Keys| - count
      {
        count := count + 1;
        TakenFit(prefix, count, layers.Keys);
      }
      forall j | 1 <= j < count ensures prefix + "_" + Digits(j) in layers {
        assert Numbered(prefix, j) in layers;
      }
      return Numbered(prefix, count);
    }
  }
}
