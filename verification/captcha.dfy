/** The 9x9 CAPTCHA of the forgot-password flow: choosing the target items,
    building the grid, toggling cell selections, recognising found items and
    the pass threshold of the Verify button. Every `Math.random` draw is an
    explicit argument. */
module Captcha {

  const GridSize: nat := 81

  /** The characters random cells are drawn from. */
  const Alphabet: string := "ABCDEFGHIJKLMNOPQRSTUVWXYZ0123456789"

  const ItemCount: nat := 6

  predicate InAlphabet(c: char)
  {
    'A' <= c <= 'Z' || '0' <= c <= '9'
  }

  predicate WordInAlphabet(w: string)
  {
    forall k :: 0 <= k < |w| ==> InAlphabet(w[k])
  }

  lemma AlphabetChars()
    ensures |Alphabet| == 36
    ensures forall k :: 0 <= k < |Alphabet| ==> InAlphabet(Alphabet[k])
  {
  }

  /** The twelve candidate items: six words followed by six numbers. */
  function ItemPool(): (pool: seq<string>)
    ensures |pool| == 12
    ensures forall w :: w in pool ==> WordInAlphabet(w)
  {
    ["PIKA", "SAFE", "LOCK", "GUARD", "SHIELD", "SECURE", "42", "88", "99", "77", "55", "33"]
  }

  /** No item occurs twice in the pool. */
  lemma PoolDistinct()
    ensures forall i, j :: 0 <= i < j < |ItemPool()| ==> ItemPool()[i] != ItemPool()[j]
  {
  }

  /** The outcome of the shuffle that matters: the pool indices of the six
      items a random permutation of the pool puts first. They are distinct
      indices, and every such choice is the prefix of some permutation. */
  predicate ValidPicks(picks: seq<nat>)
  {
    && |picks| == ItemCount
    && (forall k :: 0 <= k < |picks| ==> picks[k] < 12)
    && (forall k, l :: 0 <= k < l < |picks| ==> picks[k] != picks[l])
  }

  /** `generateCaptchaItems`: the pool is shuffled (a sort with a random
      comparator still permutes it) and the first six are kept. */
  function CaptchaItems(picks: seq<nat>): (items: seq<string>)
    requires ValidPicks(picks)
    ensures |items| == ItemCount
    ensures forall w :: w in items ==> w in ItemPool() && WordInAlphabet(w)
    ensures forall k, l :: 0 <= k < l < |items| ==> items[k] != items[l]
  {
    PoolDistinct();
    seq(ItemCount, k requires 0 <= k < ItemCount => ItemPool()[picks[k]])
  }

  // ----- grid construction ---------------------------------------------------

  /** One write of `generateGrid`'s second phase: `grid[pos] = ch`. */
  datatype Placement = Placement(pos: nat, ch: char)

  /** The random draws `generateGrid` makes for `items`: one alphabet index
      per cell, then one cell per character of every item. */
  predicate DrawFits(items: seq<string>, fill: seq<nat>, positions: seq<seq<nat>>)
  {
    && |fill| == GridSize
    && (forall p :: 0 <= p < |fill| ==> fill[p] < |Alphabet|)
    && |positions| == |items|
    && (forall i :: 0 <= i < |items| ==> |positions[i]| == |items[i]|)
    && (forall i, j :: 0 <= i < |positions| && 0 <= j < |positions[i]| ==> positions[i][j] < GridSize)
  }

  /** The writes one item makes, in order. */
  function Zip(item: string, pos: seq<nat>): (ps: seq<Placement>)
    requires |item| == |pos|
    ensures |ps| == |item|
    ensures forall k :: 0 <= k < |ps| ==> ps[k] == Placement(pos[k], item[k])
  {
    if |item| == 0 then []
    else Zip(item[..|item| - 1], pos[..|pos| - 1]) + [Placement(pos[|pos| - 1], item[|item| - 1])]
  }

  /** All writes of the second phase, item after item. */
  function Placements(items: seq<string>, positions: seq<seq<nat>>): (ps: seq<Placement>)
    requires |positions| == |items|
    requires forall i :: 0 <= i < |items| ==> |positions[i]| == |items[i]|
  {
    if |items| == 0 then []
    else
      var n := |items| - 1;
      Placements(items[..n], positions[..n]) + Zip(items[n], positions[n])
  }

  /** What cell `p` holds after the writes `ps`: the character of the LAST
      write to `p` (later writes clobber earlier ones), or the random fill
      character when nothing was written there. */
  function CellAfter(fill: seq<nat>, ps: seq<Placement>, p: nat): char
    requires p < |fill| && fill[p] < |Alphabet|
  {
    if |ps| == 0 then Alphabet[fill[p]]
    else if ps[|ps| - 1].pos == p then ps[|ps| - 1].ch
    else CellAfter(fill, ps[..|ps| - 1], p)
  }

  /** The grid `generateGrid(items)` returns for the given draws: exactly 81
      cells, and when the items are spelt in `A-Z0-9` (as every pool item
      is) every cell is in `A-Z0-9`. */
  function GridSpec(items: seq<string>, fill: seq<nat>, positions: seq<seq<nat>>): (grid: seq<char>)
    requires DrawFits(items, fill, positions)
    ensures |grid| == GridSize
    ensures (forall w :: w in items ==> WordInAlphabet(w)) ==> forall p :: 0 <= p < |grid| ==> InAlphabet(grid[p])
  {
    var ps := Placements(items, positions);
    PlacedCellsInAlphabet(items, fill, positions);
    seq(GridSize, p requires 0 <= p < GridSize => CellAfter(fill, ps, p))
  }

  lemma CellAfterAppend(fill: seq<nat>, ps: seq<Placement>, x: Placement, p: nat)
    requires p < |fill| && fill[p] < |Alphabet|
    ensures CellAfter(fill, ps + [x], p) == if x.pos == p then x.ch else CellAfter(fill, ps, p)
  {
    assert (ps + [x])[..|ps|] == ps;
  }

  lemma ZipStep(item: string, pos: seq<nat>, j: nat)
    requires |item| == |pos| && j < |item|
    ensures Zip(item[..j + 1], pos[..j + 1]) == Zip(item[..j], pos[..j]) + [Placement(pos[j], item[j])]
  {
    assert item[..j + 1][..j] == item[..j];
    assert pos[..j + 1][..j] == pos[..j];
  }

  lemma PlacementsStep(items: seq<string>, positions: seq<seq<nat>>, i: nat)
    requires |positions| == |items| && i < |items|
    requires forall i :: 0 <= i < |items| ==> |positions[i]| == |items[i]|
    ensures Placements(items[..i + 1], positions[..i + 1])
         == Placements(items[..i], positions[..i]) + Zip(items[i], positions[i])
  {
    assert items[..i + 1][..i] == items[..i];
    assert positions[..i + 1][..i] == positions[..i];
  }

  /** One overwrite `grid[x.pos] = x.ch` turns the grid after the writes `ps`
      into the grid after `ps + [x]`. */
  lemma OverwriteCell(grid: seq<char>, fill: seq<nat>, ps: seq<Placement>, x: Placement)
    requires |grid| == GridSize && |fill| == GridSize && x.pos < GridSize
    requires forall p :: 0 <= p < |fill| ==> fill[p] < |Alphabet|
    requires forall q :: 0 <= q < GridSize ==> grid[q] == CellAfter(fill, ps, q)
    ensures var next := grid[x.pos := x.ch];
      forall q :: 0 <= q < GridSize ==> next[q] == CellAfter(fill, ps + [x], q)
  {
    var next := grid[x.pos := x.ch];
    forall q | 0 <= q < GridSize
      ensures next[q] == CellAfter(fill, ps + [x], q)
    {
      CellAfterAppend(fill, ps, x, q);
    }
  }

  /** `generateGrid` as written: fill 81 cells from the alphabet, then for
      every item and every character of it overwrite the drawn cell. */
  method GenerateGrid(items: seq<string>, fill: seq<nat>, positions: seq<seq<nat>>) returns (grid: seq<char>)
    requires DrawFits(items, fill, positions)
    ensures grid == GridSpec(items, fill, positions)
  {
    grid := [];
    var p := 0;
    while p < GridSize
      invariant 0 <= p <= GridSize
      invariant |grid| == p
      invariant forall q :: 0 <= q < p ==> grid[q] == CellAfter(fill, [], q)
    {
      grid := grid + [Alphabet[fill[p]]];
      p := p + 1;
    }
    var i := 0;
    while i < |items|
      invariant 0 <= i <= |items|
      invariant |grid| == GridSize
      invariant forall q :: 0 <= q < GridSize ==> grid[q] == CellAfter(fill, Placements(items[..i], positions[..i]), q)
    {
      var item := items[i];
      var done := Placements(items[..i], positions[..i]);
      var j := 0;
      assert item[..0] == [] && positions[i][..0] == [];
      assert done + Zip(item[..0], positions[i][..0]) == done;
      while j < |item|
        invariant 0 <= j <= |item|
        invariant |grid| == GridSize
        invariant forall q :: 0 <= q < GridSize ==> grid[q] == CellAfter(fill, done + Zip(item[..j], positions[i][..j]), q)
      {
        var pos := positions[i][j];
        ZipStep(item, positions[i], j);
        var x := Placement(pos, item[j]);
        assert done + Zip(item[..j + 1], positions[i][..j + 1]) == (done + Zip(item[..j], positions[i][..j])) + [x];
        OverwriteCell(grid, fill, done + Zip(item[..j], positions[i][..j]), x);
        grid := grid[pos := item[j]];
        j := j + 1;
      }
      assert item[..j] == item && positions[i][..j] == positions[i];
      PlacementsStep(items, positions, i);
      i := i + 1;
    }
    assert items[..i] == items && positions[..i] == positions;
  }

  /** Every cell holds either a random alphabet character or a character of
      one of the items. */
  lemma {:induction false} CellOrigin(fill: seq<nat>, ps: seq<Placement>, p: nat)
    requires p < |fill| && fill[p] < |Alphabet|
    ensures CellAfter(fill, ps, p) == Alphabet[fill[p]] || exists k :: 0 <= k < |ps| && ps[k].ch == CellAfter(fill, ps, p)
  {
    if |ps| > 0 && ps[|ps| - 1].pos != p {
      CellOrigin(fill, ps[..|ps| - 1], p);
      var c := CellAfter(fill, ps, p);
      if c != Alphabet[fill[p]] {
        var k :| 0 <= k < |ps| - 1 && ps[..|ps| - 1][k].ch == c;
        assert ps[k].ch == c;
      }
    }
  }

  lemma {:induction false} PlacementChars(items: seq<string>, positions: seq<seq<nat>>)
    requires |positions| == |items|
    requires forall i :: 0 <= i < |items| ==> |positions[i]| == |items[i]|
    requires forall w :: w in items ==> WordInAlphabet(w)
    ensures forall x :: x in Placements(items, positions) ==> InAlphabet(x.ch)
  {
    if |items| > 0 {
      var n := |items| - 1;
      assert forall w :: w in items[..n] ==> w in items;
      PlacementChars(items[..n], positions[..n]);
      assert items[n] in items;
    }
  }

  /** Every write and every fill character is in `A-Z0-9`, so every cell
      is, whatever the later writes clobber. */
  lemma PlacedCellsInAlphabet(items: seq<string>, fill: seq<nat>, positions: seq<seq<nat>>)
    requires DrawFits(items, fill, positions)
    ensures (forall w :: w in items ==> WordInAlphabet(w)) ==>
      forall p :: 0 <= p < GridSize ==> InAlphabet(CellAfter(fill, Placements(items, positions), p))
  {
    if forall w :: w in items ==> WordInAlphabet(w) {
      var ps := Placements(items, positions);
      PlacementChars(items, positions);
      AlphabetChars();
      forall p | 0 <= p < GridSize
        ensures InAlphabet(CellAfter(fill, ps, p))
      {
        CellOrigin(fill, ps, p);
        if CellAfter(fill, ps, p) != Alphabet[fill[p]] {
          var k :| 0 <= k < |ps| && ps[k].ch == CellAfter(fill, ps, p);
          assert ps[k] in ps;
        }
      }
    }
  }

  /** A write nobody overwrites afterwards is visible in the grid; in
      particular, when all drawn positions are distinct, every character of
      every item is on the grid. */
  lemma {:induction false} UnclobberedWriteVisible(fill: seq<nat>, ps: seq<Placement>, k: nat)
    requires k < |ps| && ps[k].pos < |fill| && fill[ps[k].pos] < |Alphabet|
    requires forall m :: k < m < |ps| ==> ps[m].pos != ps[k].pos
    ensures CellAfter(fill, ps, ps[k].pos) == ps[k].ch
  {
    if k < |ps| - 1 {
      UnclobberedWriteVisible(fill, ps[..|ps| - 1], k);
    }
  }

  // ----- selection and found items -------------------------------------------

  /** The state `CaptchaGrid` keeps: its grid and the two sets. */
  datatype CaptchaState = CaptchaState(grid: seq<char>, selected: set<nat>, found: set<string>)

  /** A freshly mounted `CaptchaGrid`: nothing selected, nothing found. */
  function Mounted(grid: seq<char>): CaptchaState
  {
    CaptchaState(grid, {}, {})
  }

  /** The selection change of `handleCellClick`. */
  function Toggle(selected: set<nat>, index: nat): (r: set<nat>)
    ensures index in r <==> index !in selected
    ensures forall j :: j != index ==> (j in r <==> j in selected)
  {
    if index in selected then selected - {index} else selected + {index}
  }

  /** Clicking the same cell twice restores the selection. */
  lemma ToggleTwice(selected: set<nat>, index: nat)
    ensures Toggle(Toggle(selected, index), index) == selected
  {
  }

  /** An item counts as found when each of its characters is shown by SOME
      selected cell; position and multiplicity are ignored. */
  function ItemFound(item: string, grid: seq<char>, selected: set<nat>): (r: bool)
    ensures r <==> forall k :: 0 <= k < |item| ==> item[k] in SelectedValues(grid, selected)
  {
    forall k :: 0 <= k < |item| ==> Shows(grid, selected, item[k])
  }

  /** Some selected cell of `grid` holds `c`. */
  predicate Shows(grid: seq<char>, selected: set<nat>, c: char)
  {
    exists i :: i in selected && i < |grid| && grid[i] == c
  }

  /** `Array.from(newSelected).map(i => grid[i])`, as a set of characters. */
  function SelectedValues(grid: seq<char>, selected: set<nat>): (vs: set<char>)
    ensures forall c :: c in vs <==> Shows(grid, selected, c)
  {
    set i | i in selected && i < |grid| :: grid[i]
  }

  /** `chars.every(char => selectedValues.includes(char))`. */
  method AllCharsSelected(item: string, grid: seq<char>, selected: set<nat>) returns (all: bool)
    ensures all <==> ItemFound(item, grid, selected)
  {
    var values := SelectedValues(grid, selected);
    var k := 0;
    while k < |item|
      invariant 0 <= k <= |item|
      invariant forall m :: 0 <= m < k ==> item[m] in values
    {
      if item[k] !in values {
        return false;
      }
      k := k + 1;
    }
    forall m | 0 <= m < |item|
      ensures Shows(grid, selected, item[m])
    {
      assert item[m] in values;
    }
    return true;
  }

  /** `handleCellClick(index)`: toggle the cell, then mark every target item
      the new selection spells as found. Found items are never removed here. */
  function CellClick(targets: seq<string>, st: CaptchaState, index: nat): (r: CaptchaState)
    requires index < |st.grid|
    ensures r.grid == st.grid
    ensures r.selected == Toggle(st.selected, index)
    ensures st.found <= r.found
    ensures forall w :: w in r.found && w !in st.found ==> w in targets && ItemFound(w, st.grid, r.selected)
    ensures forall w :: w in targets && ItemFound(w, st.grid, r.selected) ==> w in r.found
  {
    var selected := Toggle(st.selected, index);
    var spelt := set w | w in targets && ItemFound(w, st.grid, selected);
    CaptchaState(st.grid, selected, st.found + spelt)
  }

  /** Selecting the whole grid finds exactly the items whose characters all
      appear somewhere on it, wherever they lie. */
  lemma SelectAllFinds(item: string, grid: seq<char>, selected: set<nat>)
    requires forall i :: 0 <= i < |grid| ==> i in selected
    ensures ItemFound(item, grid, selected) <==> forall k :: 0 <= k < |item| ==> item[k] in grid
  {
    if forall k :: 0 <= k < |item| ==> item[k] in grid {
      forall k | 0 <= k < |item|
        ensures Shows(grid, selected, item[k])
      {
        var i :| 0 <= i < |grid| && grid[i] == item[k];
        assert i in selected;
      }
    }
  }

  /** The least number of found items the page asks for:
      `Math.ceil(targetItems.length * 0.5)`. */
  function MinItemsShown(n: nat): (m: nat)
    ensures 2 * m >= n
    ensures m == 0 || 2 * (m - 1) < n
  {
    (n + 1) / 2
  }

  datatype VerifyResult = VerifyResult(passed: bool, state: CaptchaState)

  /** `handleVerify`: pass when `found.size >= targets.length * 0.5`;
      otherwise clear the selection and the found items. */
  function Verify(targets: seq<string>, st: CaptchaState): (r: VerifyResult)
    ensures r.passed <==> 2 * |st.found| >= |targets|
    ensures r.passed ==> r.state == st
    ensures !r.passed ==> r.state == Mounted(st.grid)
  {
    if 2 * |st.found| >= |targets| then VerifyResult(true, st)
    else VerifyResult(false, CaptchaState(st.grid, {}, {}))
  }

  /** The threshold Verify applies is the number the page displays. */
  lemma ThresholdIsDisplayedMinimum(targets: seq<string>, st: CaptchaState)
    ensures Verify(targets, st).passed <==> |st.found| >= MinItemsShown(|targets|)
  {
  }

  /** The shape a `CaptchaGrid` keeps: a full grid, selections naming its
      cells, and found items drawn from the targets. */
  ghost predicate WellFormed(targets: seq<string>, st: CaptchaState)
  {
    && |st.grid| == GridSize
    && (forall p :: 0 <= p < |st.grid| ==> InAlphabet(st.grid[p]))
    && (forall i :: i in st.selected ==> i < GridSize)
    && (forall w :: w in st.found ==> w in targets)
  }

  /** Clicking a cell and verifying both keep the CAPTCHA well formed. */
  lemma ClickAndVerifyPreserveWellFormed(targets: seq<string>, st: CaptchaState, index: nat)
    requires WellFormed(targets, st)
    requires index < |st.grid|
    ensures WellFormed(targets, CellClick(targets, st, index))
    ensures WellFormed(targets, Verify(targets, st).state)
  {
  }

  /** A run of cell clicks, one after the other. */
  function Clicks(targets: seq<string>, st: CaptchaState, clicks: seq<nat>): CaptchaState
    requires forall k :: 0 <= k < |clicks| ==> clicks[k] < |st.grid|
    decreases |clicks|
  {
    if |clicks| == 0 then st
    else Clicks(targets, CellClick(targets, st, clicks[0]), clicks[1..])
  }

  /** Found items never shrink over a run of clicks. */
  lemma {:induction false} FoundGrowsOverClicks(targets: seq<string>, st: CaptchaState, clicks: seq<nat>)
    requires forall k :: 0 <= k < |clicks| ==> clicks[k] < |st.grid|
    ensures st.found <= Clicks(targets, st, clicks).found
    ensures Clicks(targets, st, clicks).grid == st.grid
    decreases |clicks|
  {
    if |clicks| > 0 {
      FoundGrowsOverClicks(targets, CellClick(targets, st, clicks[0]), clicks[1..]);
    }
  }
}
