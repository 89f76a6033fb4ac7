/** The grid of viewers (src/components/Panels/GridView.tsx): at most `maxActive` engine
    viewers live at once, and they are kept in least-recently-used order. `slots[i]` says whether
    tile `i` holds a viewer; `order` lists the active tiles, the oldest first. */
module Grid {
  import opened Types

  /** The bound the order respects: `maxActive`, but at least one, because a new viewer is
      pushed after the eviction even when `maxActive` is below one. */
  function Cap(maxActive: int): (c: int)
    ensures c >= 1 && c >= maxActive
    ensures maxActive >= 1 ==> c == maxActive
  {
    if maxActive < 1 then 1 else maxActive
  }

  predicate NoDuplicates(s: seq<int>) {
    forall i, j :: 0 <= i < j < |s| ==> s[i] != s[j]
  }

  /** `order.filter(i => i !== x)`. */
  function Without(s: seq<int>, x: int): (r: seq<int>)
    ensures forall y :: y in r <==> y in s && y != x
    ensures NoDuplicates(s) ==> NoDuplicates(r)
    ensures NoDuplicates(s) && x in s ==> |r| == |s| - 1
    ensures x !in s ==> r == s
    ensures |r| <= |s|
    decreases |s|
  {
    if s == [] then []
    else if s[0] == x then Without(s[1..], x)
    else
      var rest := Without(s[1..], x);
      assert NoDuplicates(s) ==> s[0] !in rest;
      [s[0]] + rest
  }

  /** The filter keeps the other tiles in their order: any two of them appear in the input
      in the same order. */
  lemma {:induction false} WithoutKeepsOrder(s: seq<int>, x: int, i: nat, j: nat)
    requires i < j < |Without(s, x)|
    ensures exists a, b :: 0 <= a < b < |s| && s[a] == Without(s, x)[i] && s[b] == Without(s, x)[j]
    decreases |s|
  {
    var t := s[1..];
    var rest := Without(t, x);
    if s[0] == x {
      assert Without(s, x) == rest;
      WithoutKeepsOrder(t, x, i, j);
      var a, b :| 0 <= a < b < |t| && t[a] == rest[i] && t[b] == rest[j];
      assert s[a + 1] == t[a] && s[b + 1] == t[b];
    } else {
      assert Without(s, x) == [s[0]] + rest;
      if i == 0 {
        assert rest[j - 1] in t;
        var b :| 0 <= b < |t| && t[b] == rest[j - 1];
        assert s[b + 1] == t[b];
      } else {
        WithoutKeepsOrder(t, x, i - 1, j - 1);
        var a, b :| 0 <= a < b < |t| && t[a] == rest[i - 1] && t[b] == rest[j - 1];
        assert s[a + 1] == t[a] && s[b + 1] == t[b];
      }
    }
  }

  /** The order after activating `index`, which holds a viewer exactly when `active`: a
      reactivated tile moves to the back; a new tile first evicts the oldest when the order is
      full, and joins at the back only when its host element exists. */
  function NextOrder(order: seq<int>, index: int, active: bool, maxActive: int, hostPresent: bool): (r: seq<int>)
    ensures forall y :: y in r ==> y in order || y == index
    ensures active || hostPresent ==> index in r
    ensures |r| <= |order| + 1
  {
    if active then Without(order, index) + [index]
    else
      var kept := if |order| >= maxActive && order != [] then order[1..] else order;
      if hostPresent then kept + [index] else kept
  }

  /** Activation keeps the order free of repetitions and within the bound. */
  lemma NextOrderKeepsBound(order: seq<int>, index: int, active: bool, maxActive: int, hostPresent: bool)
    requires NoDuplicates(order) && |order| <= Cap(maxActive)
    requires active <==> index in order
    ensures NoDuplicates(NextOrder(order, index, active, maxActive, hostPresent))
    ensures |NextOrder(order, index, active, maxActive, hostPresent)| <= Cap(maxActive)
  {
    if !active {
      var kept := if |order| >= maxActive && order != [] then order[1..] else order;
      assert index !in kept;
      assert |kept| < Cap(maxActive);
    }
  }

  /** The activated tile is the most recently used one, unless it could not be created. */
  lemma NextOrderMostRecent(order: seq<int>, index: int, active: bool, maxActive: int, hostPresent: bool)
    requires active || hostPresent
    ensures var r := NextOrder(order, index, active, maxActive, hostPresent); |r| > 0 && r[|r| - 1] == index
  {
  }

  /** A new tile on a full order evicts exactly the oldest tile and keeps the others in order;
      a reactivation evicts nothing. */
  lemma NextOrderEviction(order: seq<int>, index: int, active: bool, maxActive: int, hostPresent: bool)
    requires NoDuplicates(order) && (active <==> index in order)
    ensures !active && |order| >= maxActive && order != [] ==>
      NextOrder(order, index, active, maxActive, hostPresent)[..|order| - 1] == order[1..]
      && order[0] !in NextOrder(order, index, active, maxActive, hostPresent)
    ensures forall x :: x in order && x != index ==> (x in NextOrder(order, index, active, maxActive, hostPresent) <==>
      active || |order| < maxActive || x != order[0])
  {
  }

  /** The `maxActive` prop's default. */
  const DefaultMaxActive: int := 8

  class GridState {
    var slots: array<bool>
    var order: seq<int>
    const maxActive: int

    /** The order has no repetitions and respects the bound, and a tile is in the order
        exactly when it holds a viewer. */
    ghost predicate Valid()
      reads this, slots
    {
      && NoDuplicates(order)
      && |order| <= Cap(maxActive)
      && (forall j :: 0 <= j < |order| ==> 0 <= order[j] < slots.Length)
      && (forall i :: 0 <= i < slots.Length ==> (slots[i] <==> i in order))
    }

    /** The grid for `n` files, before any tile was activated. */
    constructor (n: nat, maxActive: int)
      ensures Valid()
      ensures this.maxActive == maxActive && slots.Length == n && order == []
      ensures forall i :: 0 <= i < n ==> !slots[i]
    {
      this.maxActive := maxActive;
      slots := new bool[n](i => false);
      order := [];
    }

    /** The effect on `files.length`: one empty slot per file and an empty order. */
    method Reset(n: nat)
      modifies this
      ensures Valid()
      ensures fresh(slots) && slots.Length == n && order == []
      ensures forall i :: 0 <= i < n ==> !slots[i]
    {
      slots := new bool[n](i => false);
      order := [];
    }

    /** `deactivateOldest()`: the oldest tile leaves the order and loses its viewer, which is
        cleared; nothing happens when no tile is active. */
    method DeactivateOldest() returns (cleared: Option<int>)
      requires Valid()
      modifies this, slots
      ensures Valid() && slots == old(slots)
      ensures old(order) == [] ==> cleared == None && order == [] && slots[..] == old(slots[..])
      ensures old(order) != [] ==>
        && cleared == Some(old(order)[0])
        && order == old(order)[1..]
        && slots[..] == old(slots[..])[old(order)[0] := false]
    {
      if order == [] {
        return None;
      }
      var oldest := order[0];
      order := order[1..];
      assert oldest !in order;
      if slots[oldest] {
        slots[oldest] := false;
      }
      cleared := Some(oldest);
    }

    /** `activate(index)`. A tile with a viewer moves to the back of the order. Otherwise, when
        the order is full, the oldest tile is deactivated first; then, if the tile's host element
        exists, a viewer is created for it, the tile goes to the back of the order and
        `onSelect(index)` is called when given. */
    method Activate(index: int, hostPresent: bool, hasOnSelect: bool) returns (evicted: Option<int>, selected: bool)
      requires Valid() && 0 <= index < slots.Length
      modifies this, slots
      ensures Valid() && slots == old(slots)
      ensures order == NextOrder(old(order), index, old(slots[index]), maxActive, hostPresent)
      ensures old(slots[index]) ==> slots[..] == old(slots[..]) && evicted == None && !selected
      ensures !old(slots[index]) ==>
        var full := |old(order)| >= maxActive && old(order) != [];
        var emptied := if full then old(slots[..])[old(order)[0] := false] else old(slots[..]);
        && evicted == (if full then Some(old(order)[0]) else None)
        && (!hostPresent ==> slots[..] == emptied && !selected)
        && (hostPresent ==> slots[..] == emptied[index := true] && selected == hasOnSelect)
    {
      if slots[index] {
        var rest := Without(order, index);
        forall j | 0 <= j < |rest| ensures 0 <= rest[j] < slots.Length {
          assert rest[j] in order;
          var k :| 0 <= k < |order| && order[k] == rest[j];
        }
        order := rest + [index];
        return None, false;
      }
      evicted := None;
      if |order| >= maxActive {
        evicted := DeactivateOldest();
      }
      if !hostPresent {
        return evicted, false;
      }
      slots[index] := true;
      order := order + [index];
      selected := hasOnSelect;
    }
  }

  /** `Math.max(1, Math.min(n, 6))`: one column per file up to six. */
  function Cols(n: nat): (c: nat)
    ensures 1 <= c <= 6
    ensures n >= 1 ==> c <= n
    ensures 1 <= n <= 6 ==> c == n
    ensures n >= 6 ==> c == 6
    ensures n == 0 ==> c == 1
  {
    if n < 1 then 1 else if n > 6 then 6 else n
  }

  /** `Math.ceil(a / b)` for a positive divisor. */
  function CeilDiv(a: nat, b: nat): (q: nat)
    requires b > 0
    ensures q * b >= a
    ensures q == 0 || (q - 1) * b < a
  {
    (a + b - 1) / b
  }

  /** `Math.max(1, Math.ceil(n / cols))`. */
  function Rows(n: nat): (r: nat)
    ensures r >= 1 && r * Cols(n) >= n
  {
    var q := CeilDiv(n, Cols(n));
    if q < 1 then 1 else q
  }

  /** The grid has room for every file, and no row is wasted: one row fewer would not hold
      them, unless there is a single row. */
  lemma GridFits(n: nat)
    ensures Cols(n) <= 6 && Cols(n) * Rows(n) >= n
    ensures Rows(n) == 1 || (Rows(n) - 1) * Cols(n) < n
  {
  }

  lemma GridExamples()
    ensures Cols(0) == 1 && Rows(0) == 1
    ensures Cols(4) == 4 && Rows(4) == 1
    ensures Cols(7) == 6 && Rows(7) == 2
    ensures Cols(13) == 6 && Rows(13) == 3
  {
  }
}
