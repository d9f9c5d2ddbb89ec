/**
 Pinning and row filtering: which rows a set of pins matches, how pins are
 toggled and cleared, how they are translated when the display switches between
 raw values and magnitudes, and how the displayed rows follow from the pins.
 */
module Pins {
  import opened Schema

  /** Key of NULL cells. */
  const NULL_PIN_KEY := "\0null"

  /** Text functions of the display: trimmed lower case, magnitude format, and the
      entity kind named by a letter. */
  datatype Display = Display(norm: string -> string, mag: Cell -> string, kindName: char -> Option<string>)

  /** The value a pin is compared with. */
  function CellDisplayValue(d: Display, c: Cell, magMode: bool): string
  {
    if c.isNull then NULL_PIN_KEY
    else if c.kind == Entity && |c.value| >= 2 && c.value[1] == ' ' && d.kindName(c.value[0]).Some? then
      d.kindName(c.value[0]).value
    else if magMode then d.norm(d.mag(c))
    else d.norm(c.value)
  }

  predicate MatchesPin(d: Display, row: CellRow, pin: Pin, magMode: bool)
  {
    pin.col < |row| && CellDisplayValue(d, row[pin.col], magMode) in pin.values
  }

  predicate Matches(d: Display, row: CellRow, pins: seq<Pin>, magMode: bool)
  {
    forall p :: p in pins ==> MatchesPin(d, row, p, magMode)
  }

  method MatchesAllPins(d: Display, row: CellRow, pins: seq<Pin>, magMode: bool) returns (r: bool)
    ensures r == Matches(d, row, pins, magMode)
  {
    for i := 0 to |pins|
      invariant forall j :: 0 <= j < i ==> MatchesPin(d, row, pins[j], magMode)
    {
      if pins[i].col >= |row| {
        assert !MatchesPin(d, row, pins[i], magMode);
        return false;
      }
      if CellDisplayValue(d, row[pins[i].col], magMode) !in pins[i].values {
        assert !MatchesPin(d, row, pins[i], magMode);
        return false;
      }
    }
    return true;
  }

  // ----- toggling and clearing -----

  /** One pin per column, and no pin without values. */
  ghost predicate PinsOk(pins: seq<Pin>)
  {
    && (forall i, j :: 0 <= i < j < |pins| ==> pins[i].col != pins[j].col)
    && forall i :: 0 <= i < |pins| ==> pins[i].values != {}
  }

  ghost predicate Pinned(pins: seq<Pin>, col: nat, key: string)
  {
    exists i :: 0 <= i < |pins| && pins[i].col == col && key in pins[i].values
  }

  ghost predicate PinnedColumn(pins: seq<Pin>, col: nat)
  {
    exists i :: 0 <= i < |pins| && pins[i].col == col
  }

  /** Position of the column's pin, or the end. */
  function PinIndex(pins: seq<Pin>, col: nat): (k: nat)
    ensures k <= |pins|
    ensures k < |pins| ==> pins[k].col == col
    ensures forall i :: 0 <= i < k ==> pins[i].col != col
  {
    if pins == [] || pins[0].col == col then 0 else
      var k := PinIndex(pins[1..], col);
      assert forall i :: 1 <= i < k + 1 ==> pins[i] == pins[1..][i - 1];
      k + 1
  }

  function Toggled(pins: seq<Pin>, col: nat, key: string): seq<Pin>
  {
    var k := PinIndex(pins, col);
    if k == |pins| then pins + [Pin(col, {key})]
    else if key !in pins[k].values then pins[k := Pin(col, pins[k].values + {key})]
    else if pins[k].values == {key} then Without(pins, k)
    else pins[k := Pin(col, pins[k].values - {key})]
  }

  /** `togglePin`: true if the value was added. */
  method TogglePin(d: Display, tab: Tab, col: nat, value: string) returns (added: bool)
    modifies tab`Pins
    ensures tab.Pins == Toggled(old(tab.Pins), col, d.norm(value))
    ensures PinsOk(old(tab.Pins)) ==> (added <==> !Pinned(old(tab.Pins), col, d.norm(value)))
  {
    var key := d.norm(value);
    for i := 0 to |tab.Pins|
      invariant tab.Pins == old(tab.Pins)
      invariant forall j :: 0 <= j < i ==> tab.Pins[j].col != col
    {
      var pin := tab.Pins[i];
      if pin.col != col {
        continue;
      }
      assert i == PinIndex(tab.Pins, col);
      if key in pin.values {
        var rest := pin.values - {key};
        if rest == {} {
          assert pin.values == {key};
          tab.Pins := Without(tab.Pins, i);
        } else {
          tab.Pins := tab.Pins[i := Pin(col, rest)];
        }
        return false;
      }
      tab.Pins := tab.Pins[i := Pin(col, pin.values + {key})];
      return true;
    }
    tab.Pins := tab.Pins + [Pin(col, {key})];
    return true;
  }

  /** Toggling flips exactly the given key of the given column. */
  lemma {:induction false} ToggledFlips(pins: seq<Pin>, col: nat, key: string)
    requires PinsOk(pins)
    ensures PinsOk(Toggled(pins, col, key))
    ensures forall c, k :: Pinned(Toggled(pins, col, key), c, k) <==> (Pinned(pins, c, k) != (c == col && k == key))
  {
    var after := Toggled(pins, col, key);
    var at := PinIndex(pins, col);
    forall c, k
      ensures Pinned(after, c, k) <==> (Pinned(pins, c, k) != (c == col && k == key))
    {
      if c == col {
        ColumnOfToggled(pins, col, key, k);
      } else {
        OthersOfToggled(pins, col, key, c, k);
      }
    }
  }

  lemma {:induction false} ColumnOfToggled(pins: seq<Pin>, col: nat, key: string, k: string)
    requires PinsOk(pins)
    ensures Pinned(Toggled(pins, col, key), col, k) <==> (Pinned(pins, col, k) != (k == key))
  {
    var after := Toggled(pins, col, key);
    var at := PinIndex(pins, col);
    if at == |pins| {
      assert after[at].col == col;
    } else if key in pins[at].values && pins[at].values == {key} {
      assert forall i :: 0 <= i < |after| ==> after[i] == pins[if i < at then i else i + 1];
    } else {
      assert after[at].col == col;
    }
  }

  lemma {:induction false} OthersOfToggled(pins: seq<Pin>, col: nat, key: string, c: nat, k: string)
    requires PinsOk(pins) && c != col
    ensures Pinned(Toggled(pins, col, key), c, k) <==> Pinned(pins, c, k)
  {
    var after := Toggled(pins, col, key);
    var at := PinIndex(pins, col);
    if at < |pins| && |after| < |pins| {
      assert forall i :: 0 <= i < |after| ==> after[i] == pins[if i < at then i else i + 1];
      assert forall i :: 0 <= i < |pins| && i != at ==> pins[i] == after[if i < at then i else i - 1];
    } else {
      assert forall i :: 0 <= i < |pins| && i != at ==> after[i] == pins[i];
    }
  }

  /** What a row must satisfy depends on the pinned keys alone, not on the order of
      the pins. */
  lemma {:induction false} MatchesByKeys(d: Display, row: CellRow, pins: seq<Pin>, magMode: bool)
    requires PinsOk(pins)
    ensures Matches(d, row, pins, magMode) <==>
            forall c: nat, k :: Pinned(pins, c, k) ==> c < |row| && Pinned(pins, c, CellDisplayValue(d, row[c], magMode))
  {
    if Matches(d, row, pins, magMode) {
      forall c: nat, k | Pinned(pins, c, k)
        ensures c < |row| && Pinned(pins, c, CellDisplayValue(d, row[c], magMode))
      {
        var i :| 0 <= i < |pins| && pins[i].col == c;
        assert pins[i] in pins;
      }
    }
    if forall c: nat, k :: Pinned(pins, c, k) ==> c < |row| && Pinned(pins, c, CellDisplayValue(d, row[c], magMode)) {
      forall i | 0 <= i < |pins|
        ensures MatchesPin(d, row, pins[i], magMode)
      {
        var k :| k in pins[i].values;
        assert Pinned(pins, pins[i].col, k);
      }
    }
  }

  /** Pinning and unpinning a value leaves every row as it was. */
  lemma {:induction false} ToggleTwice(d: Display, row: CellRow, pins: seq<Pin>, col: nat, key: string, magMode: bool)
    requires PinsOk(pins)
    ensures var twice := Toggled(Toggled(pins, col, key), col, key);
            PinsOk(twice) && (Matches(d, row, twice, magMode) <==> Matches(d, row, pins, magMode))
  {
    var once := Toggled(pins, col, key);
    var twice := Toggled(once, col, key);
    ToggledFlips(pins, col, key);
    ToggledFlips(once, col, key);
    assert forall c, k :: Pinned(twice, c, k) <==> Pinned(pins, c, k);
    MatchesByKeys(d, row, pins, magMode);
    MatchesByKeys(d, row, twice, magMode);
  }

  /** Cells whose pin key is taken from their text. */
  ghost predicate Plain(d: Display, c: Cell)
  {
    !c.isNull && !Lettered(d, c)
  }

  /** Entity cells that begin with the letter of a kind. */
  ghost predicate Lettered(d: Display, c: Cell)
  {
    !c.isNull && c.kind == Entity && |c.value| >= 2 && c.value[1] == ' ' && d.kindName(c.value[0]).Some?
  }

  /** What pinning a cell matches: Null keeps the Null cells, an entity keeps the
      entities of its kind in either display, and any other cell keeps the cells
      that read the same in the display at hand. Assumed is what the texts give:
      keys are trimmed lower-case texts already, and no cell reads like the key of
      Null. */
  lemma PinnedCellMatches(d: Display, row: CellRow, other: CellRow, col: nat, magMode: bool)
    requires col < |row| && col < |other|
    requires d.norm(CellDisplayValue(d, row[col], magMode)) == CellDisplayValue(d, row[col], magMode)
    requires forall c: Cell :: !c.isNull ==> CellDisplayValue(d, c, magMode) != "\0null"
    ensures var a, b := row[col], other[col];
            var shown := Matches(d, other, Toggled([], col, d.norm(CellDisplayValue(d, a, magMode))), magMode);
            && (a.isNull || b.isNull ==> (shown <==> a.isNull && b.isNull))
            && (Lettered(d, a) && Lettered(d, b) ==> (shown <==> d.kindName(a.value[0]) == d.kindName(b.value[0])))
            && (Plain(d, a) && Plain(d, b) ==>
                  (shown <==> if magMode then d.norm(d.mag(a)) == d.norm(d.mag(b)) else d.norm(a.value) == d.norm(b.value)))
  {
    var key := d.norm(CellDisplayValue(d, row[col], magMode));
    var pin := Pin(col, {key});
    assert PinIndex([], col) == 0;
    assert Toggled([], col, key) == [pin];
    assert pin in [pin];
    assert Matches(d, other, [pin], magMode) <==> MatchesPin(d, other, pin, magMode);
    assert MatchesPin(d, other, pin, magMode) <==> CellDisplayValue(d, other[col], magMode) == key;
  }

  method ClearPins(tab: Tab)
    modifies tab`Pins, tab`FilterActive, tab`FilterInverted
    ensures tab.Pins == [] && !tab.FilterActive && !tab.FilterInverted
  {
    tab.Pins := [];
    tab.FilterActive := false;
    tab.FilterInverted := false;
  }

  function Cleared(pins: seq<Pin>, col: nat): seq<Pin>
  {
    var k := PinIndex(pins, col);
    if k == |pins| then pins else Without(pins, k)
  }

  /** `clearPinsForColumn`: the filter is disarmed with the last pin. */
  method ClearPinsForColumn(tab: Tab, col: nat)
    modifies tab`Pins, tab`FilterActive, tab`FilterInverted
    ensures tab.Pins == Cleared(old(tab.Pins), col)
    ensures tab.FilterActive == (old(tab.FilterActive) && tab.Pins != [])
    ensures tab.FilterInverted == (old(tab.FilterInverted) && tab.Pins != [])
  {
    for i := 0 to |tab.Pins|
      invariant tab.Pins == old(tab.Pins)
      invariant forall j :: 0 <= j < i ==> tab.Pins[j].col != col
    {
      if tab.Pins[i].col == col {
        tab.Pins := Without(tab.Pins, i);
        break;
      }
    }
    if |tab.Pins| == 0 {
      tab.FilterActive := false;
      tab.FilterInverted := false;
    }
  }

  /** Clearing a column removes its keys and no others. */
  lemma {:induction false} ClearedColumn(pins: seq<Pin>, col: nat)
    requires PinsOk(pins)
    ensures PinsOk(Cleared(pins, col)) && !PinnedColumn(Cleared(pins, col), col)
    ensures forall c, k :: c != col ==> (Pinned(Cleared(pins, col), c, k) <==> Pinned(pins, c, k))
  {
    var after, at := Cleared(pins, col), PinIndex(pins, col);
    if at < |pins| {
      assert forall i :: 0 <= i < |after| ==> after[i] == pins[if i < at then i else i + 1];
      forall c, k | c != col
        ensures Pinned(after, c, k) <==> Pinned(pins, c, k)
      {
        if Pinned(pins, c, k) {
          var i :| 0 <= i < |pins| && pins[i].col == c && k in pins[i].values;
          assert after[if i < at then i else i - 1] == pins[i];
        }
      }
    }
  }

  // ----- magnitude translation -----

  /** The keys, in the new mode, of the cells a pin matches in the old mode. */
  function NewKeys(d: Display, rows: seq<CellRow>, pin: Pin, nowMag: bool): set<string>
  {
    set r | r in rows && MatchesPin(d, r, pin, !nowMag) :: CellDisplayValue(d, r[pin.col], nowMag)
  }

  /** A pin that matches nothing keeps its values. */
  function TranslatedPin(d: Display, rows: seq<CellRow>, pin: Pin, nowMag: bool): Pin
  {
    var keys := NewKeys(d, rows, pin, nowMag);
    if keys == {} then pin else Pin(pin.col, keys)
  }

  function Translated(d: Display, rows: seq<CellRow>, pins: seq<Pin>, nowMag: bool): (t: seq<Pin>)
    ensures |t| == |pins|
    ensures forall i :: 0 <= i < |pins| ==> t[i] == TranslatedPin(d, rows, pins[i], nowMag)
  {
    seq(|pins|, i requires 0 <= i < |pins| => TranslatedPin(d, rows, pins[i], nowMag))
  }

  method CollectKeys(d: Display, rows: seq<CellRow>, pin: Pin, nowMag: bool) returns (keys: set<string>)
    ensures keys == NewKeys(d, rows, pin, nowMag)
  {
    keys := {};
    for i := 0 to |rows|
      invariant keys == NewKeys(d, rows[..i], pin, nowMag)
    {
      assert rows[..i + 1] == rows[..i] + [rows[i]];
      if pin.col >= |rows[i]| {
        continue;
      }
      var c := rows[i][pin.col];
      if CellDisplayValue(d, c, !nowMag) !in pin.values {
        continue;
      }
      keys := keys + {CellDisplayValue(d, c, nowMag)};
    }
    assert rows[..|rows|] == rows;
  }

  /** `translatePins`, after the display switched to (`nowMag`) or from magnitudes. */
  method TranslatePins(d: Display, tab: Tab, nowMag: bool)
    modifies tab`Pins
    ensures tab.Pins == Translated(d, tab.FullCellRows, old(tab.Pins), nowMag)
  {
    for i := 0 to |tab.Pins|
      invariant |tab.Pins| == |old(tab.Pins)|
      invariant forall j :: 0 <= j < i ==> tab.Pins[j] == TranslatedPin(d, tab.FullCellRows, old(tab.Pins)[j], nowMag)
      invariant forall j :: i <= j < |tab.Pins| ==> tab.Pins[j] == old(tab.Pins)[j]
    {
      var keys := CollectKeys(d, tab.FullCellRows, tab.Pins[i], nowMag);
      if |keys| > 0 {
        tab.Pins := tab.Pins[i := Pin(tab.Pins[i].col, keys)];
      }
    }
  }

  /** Some loaded row satisfies the pin. */
  ghost predicate Live(d: Display, rows: seq<CellRow>, pin: Pin, magMode: bool)
  {
    exists r :: r in rows && MatchesPin(d, r, pin, magMode)
  }

  /** Within a column, cells with one raw key have one magnitude key. */
  ghost predicate RawDeterminesMag(d: Display, rows: seq<CellRow>, col: nat)
  {
    forall r, s :: r in rows && s in rows && col < |r| && col < |s|
      && CellDisplayValue(d, r[col], false) == CellDisplayValue(d, s[col], false)
      ==> CellDisplayValue(d, r[col], true) == CellDisplayValue(d, s[col], true)
  }

  lemma NewKeysOfRow(d: Display, rows: seq<CellRow>, pin: Pin, row: CellRow, nowMag: bool)
    requires row in rows && MatchesPin(d, row, pin, !nowMag)
    ensures MatchesPin(d, row, TranslatedPin(d, rows, pin, nowMag), nowMag)
    ensures Live(d, rows, pin, !nowMag)
  {
    assert CellDisplayValue(d, row[pin.col], nowMag) in NewKeys(d, rows, pin, nowMag);
  }

  /** Switching to magnitudes never loses a row, whatever the data. Neither does
      switching back. */
  lemma {:induction false} TranslationKeepsRows(d: Display, rows: seq<CellRow>, pins: seq<Pin>, row: CellRow, nowMag: bool)
    requires row in rows && Matches(d, row, pins, !nowMag)
    ensures Matches(d, row, Translated(d, rows, pins, nowMag), nowMag)
  {
    var t := Translated(d, rows, pins, nowMag);
    forall i | 0 <= i < |t|
      ensures MatchesPin(d, row, t[i], nowMag)
    {
      assert pins[i] in pins;
      NewKeysOfRow(d, rows, pins[i], row, nowMag);
    }
  }

  /** In the new mode, the row looks like one that the pin matches in the old mode. */
  ghost predicate Akin(d: Display, rows: seq<CellRow>, pin: Pin, row: CellRow, nowMag: bool)
  {
    pin.col < |row| &&
    exists r :: r in rows && MatchesPin(d, r, pin, !nowMag)
             && CellDisplayValue(d, r[pin.col], nowMag) == CellDisplayValue(d, row[pin.col], nowMag)
  }

  /** A live pin, translated, matches the rows that are akin to its own. */
  lemma {:induction false} LiveTranslation(d: Display, rows: seq<CellRow>, pin: Pin, row: CellRow, nowMag: bool)
    requires Live(d, rows, pin, !nowMag)
    ensures MatchesPin(d, row, TranslatedPin(d, rows, pin, nowMag), nowMag) <==> Akin(d, rows, pin, row, nowMag)
  {
    var r0 :| r0 in rows && MatchesPin(d, r0, pin, !nowMag);
    assert CellDisplayValue(d, r0[pin.col], nowMag) in NewKeys(d, rows, pin, nowMag);
  }

  lemma DeadTranslation(d: Display, rows: seq<CellRow>, pin: Pin, nowMag: bool)
    requires !Live(d, rows, pin, !nowMag)
    ensures TranslatedPin(d, rows, pin, nowMag) == pin
  {
    assert NewKeys(d, rows, pin, nowMag) == {};
  }

  /** What a row needs, in the new mode, to pass a translated pin: to be akin to one of
      the pin's rows, or, if the pin had none, to have one of its old keys. */
  ghost predicate Meets(d: Display, rows: seq<CellRow>, pin: Pin, row: CellRow, nowMag: bool)
  {
    if Live(d, rows, pin, !nowMag) then Akin(d, rows, pin, row, nowMag) else MatchesPin(d, row, pin, nowMag)
  }

  /** The rows that a whole list of pins matches after the switch. */
  lemma {:induction false} TranslationMeets(d: Display, rows: seq<CellRow>, pins: seq<Pin>, row: CellRow, nowMag: bool)
    ensures Matches(d, row, Translated(d, rows, pins, nowMag), nowMag) <==> forall p :: p in pins ==> Meets(d, rows, p, row, nowMag)
  {
    var t := Translated(d, rows, pins, nowMag);
    forall i | 0 <= i < |pins|
      ensures MatchesPin(d, row, t[i], nowMag) <==> Meets(d, rows, pins[i], row, nowMag)
    {
      if Live(d, rows, pins[i], !nowMag) {
        LiveTranslation(d, rows, pins[i], row, nowMag);
      } else {
        DeadTranslation(d, rows, pins[i], nowMag);
      }
    }
    if Matches(d, row, t, nowMag) {
      forall p | p in pins
        ensures Meets(d, rows, p, row, nowMag)
      {
        var i :| 0 <= i < |pins| && pins[i] == p;
        assert t[i] in t;
      }
    }
    if forall p :: p in pins ==> Meets(d, rows, p, row, nowMag) {
      forall p | p in t
        ensures MatchesPin(d, row, p, nowMag)
      {
        var i :| 0 <= i < |t| && t[i] == p;
        assert pins[i] in pins;
      }
    }
  }

  /** A loaded row's old keys get it rejected by some pin of the list. */
  ghost predicate Rejected(d: Display, row: CellRow, pins: seq<Pin>, magMode: bool)
  {
    exists p :: p in pins && !MatchesPin(d, row, p, magMode)
  }

  /** No rejected row is let in by its new keys: for each, some pin has rows, none of
      which shares its new key, or has no rows and not its new key either. */
  ghost predicate NoNewcomers(d: Display, rows: seq<CellRow>, pins: seq<Pin>, nowMag: bool)
  {
    forall r :: r in rows && Rejected(d, r, pins, !nowMag) ==>
      exists q :: q in pins && !Meets(d, rows, q, r, nowMag)
  }

  /** Exactly when switching the display leaves the matching rows of a list of pins as
      they were. */
  lemma {:induction false} TranslationExact(d: Display, rows: seq<CellRow>, pins: seq<Pin>, nowMag: bool)
    ensures (forall r :: r in rows ==>
               (Matches(d, r, Translated(d, rows, pins, nowMag), nowMag) <==> Matches(d, r, pins, !nowMag)))
       <==> NoNewcomers(d, rows, pins, nowMag)
  {
    forall r | r in rows
      ensures Rejected(d, r, pins, !nowMag) <==> !Matches(d, r, pins, !nowMag)
      ensures Matches(d, r, Translated(d, rows, pins, nowMag), nowMag) <==> forall q :: q in pins ==> Meets(d, rows, q, r, nowMag)
      ensures Matches(d, r, pins, !nowMag) ==> Matches(d, r, Translated(d, rows, pins, nowMag), nowMag)
    {
      TranslationMeets(d, rows, pins, r, nowMag);
      if Matches(d, r, pins, !nowMag) {
        TranslationKeepsRows(d, rows, pins, r, nowMag);
      }
    }
  }

  const MAG_ARROW := '\U{1F821}'

  /** Magnitudes bear the arrow; a value that has none is shown as it is. */
  ghost predicate WritesArrow(d: Display)
  {
    forall c :: MAG_ARROW in d.norm(d.mag(c)) || d.norm(d.mag(c)) == d.norm(c.value)
  }

  /** The magnitude of a loaded cell is one of the pin's values, and not the cell's raw
      value. */
  ghost predicate MagnitudePinned(d: Display, rows: seq<CellRow>, pin: Pin)
  {
    exists r :: r in rows && MatchesPin(d, r, pin, true) && MAG_ARROW in CellDisplayValue(d, r[pin.col], true)
  }

  /** A pin that matches no loaded row by raw values comes alive with the magnitudes if
      and only if it has the magnitude of a loaded cell; so one without an arrow among its
      values stays dead. */
  lemma {:induction false} DeadPinWakesExactly(d: Display, rows: seq<CellRow>, pin: Pin)
    requires WritesArrow(d) && !Live(d, rows, pin, false)
    ensures TranslatedPin(d, rows, pin, true) == pin
    ensures Live(d, rows, pin, true) <==> MagnitudePinned(d, rows, pin)
    ensures (forall v :: v in pin.values ==> MAG_ARROW !in v) ==> !Live(d, rows, pin, true)
  {
    DeadTranslation(d, rows, pin, true);
    if Live(d, rows, pin, true) {
      var r :| r in rows && MatchesPin(d, r, pin, true);
      var c := r[pin.col];
      assert !MatchesPin(d, r, pin, false);
      assert MAG_ARROW in d.norm(d.mag(c)) || d.norm(d.mag(c)) == d.norm(c.value);
    }
  }

  const THREE := [MAG_ARROW, '3']

  // A display in which a thousand has the magnitude 3.
  const THOUSANDS := Display(s => s, (c: Cell) => if c.value == "$1,000.00" then THREE else c.value, (k: char) => None)

  /** A pin on the magnitude 3, left over from a row that is gone, matches nothing by raw
      values; when the display switches to magnitudes again, it matches the row with a
      thousand. */
  lemma DeadPinComesAlive()
    ensures var rows, pin := [[Cell("$1,000.00", Money, false)]], Pin(0, {THREE});
            && WritesArrow(THOUSANDS)
            && !Live(THOUSANDS, rows, pin, false)
            && Translated(THOUSANDS, rows, [pin], true) == [pin]
            && !Matches(THOUSANDS, rows[0], [pin], false)
            && Matches(THOUSANDS, rows[0], Translated(THOUSANDS, rows, [pin], true), true)
            && !NoNewcomers(THOUSANDS, rows, [pin], true)
  {
    var rows, pin := [[Cell("$1,000.00", Money, false)]], Pin(0, {THREE});
    assert MAG_ARROW in THREE && |THREE| == 2 && |"$1,000.00"| == 9;
    assert CellDisplayValue(THOUSANDS, rows[0][0], false) == "$1,000.00";
    assert CellDisplayValue(THOUSANDS, rows[0][0], true) == THREE;
    assert !Live(THOUSANDS, rows, pin, false);
    DeadTranslation(THOUSANDS, rows, pin, true);
    assert pin in [pin] && rows[0] in rows;
    TranslationExact(THOUSANDS, rows, [pin], true);
  }

  /** Switching from magnitudes keeps exactly the matching rows, given that every
      pin is live and raw keys determine magnitudes. */
  lemma {:induction false} MagToRawExact(d: Display, rows: seq<CellRow>, pins: seq<Pin>, row: CellRow)
    requires row in rows
    requires forall p :: p in pins ==> Live(d, rows, p, true) && RawDeterminesMag(d, rows, p.col)
    ensures Matches(d, row, Translated(d, rows, pins, false), false) <==> Matches(d, row, pins, true)
  {
    var t := Translated(d, rows, pins, false);
    if Matches(d, row, t, false) {
      forall p | p in pins
        ensures MatchesPin(d, row, p, true)
      {
        var i :| 0 <= i < |pins| && pins[i] == p;
        assert t[i] in t;
        LiveTranslation(d, rows, p, row, false);
      }
    }
    if Matches(d, row, pins, true) {
      TranslationKeepsRows(d, rows, pins, row, false);
    }
  }

  /** Raw pins taken to magnitudes and back. */
  function RoundTrip(d: Display, rows: seq<CellRow>, pins: seq<Pin>): seq<Pin>
  {
    Translated(d, rows, Translated(d, rows, pins, true), false)
  }

  function RoundTripPin(d: Display, rows: seq<CellRow>, pin: Pin): Pin
  {
    TranslatedPin(d, rows, TranslatedPin(d, rows, pin, true), false)
  }

  /** Both legs stay live. */
  lemma {:induction false} RoundTripLive(d: Display, rows: seq<CellRow>, pin: Pin)
    requires Live(d, rows, pin, false)
    ensures Live(d, rows, TranslatedPin(d, rows, pin, true), true)
    ensures Live(d, rows, RoundTripPin(d, rows, pin), false)
  {
    var mag := TranslatedPin(d, rows, pin, true);
    var r0 :| r0 in rows && MatchesPin(d, r0, pin, false);
    NewKeysOfRow(d, rows, pin, r0, true);
    NewKeysOfRow(d, rows, mag, r0, false);
  }

  /** A pin comes back from a round trip matching its magnitude class. */
  lemma {:induction false} RoundTripOfPin(d: Display, rows: seq<CellRow>, pin: Pin, row: CellRow)
    requires Live(d, rows, pin, false) && RawDeterminesMag(d, rows, pin.col) && row in rows
    ensures MatchesPin(d, row, RoundTripPin(d, rows, pin), false) <==> Akin(d, rows, pin, row, true)
  {
    var mag := TranslatedPin(d, rows, pin, true);
    RoundTripLive(d, rows, pin);
    LiveTranslation(d, rows, mag, row, false);
    LiveTranslation(d, rows, pin, row, true);
    assert Akin(d, rows, mag, row, false) <==> MatchesPin(d, row, mag, true);
  }

  /** The round trip is a closure: it keeps every matching row, and a row it adds
      has, in each pinned column, the magnitude of some row the pin matched. */
  lemma {:induction false} RoundTripClosure(d: Display, rows: seq<CellRow>, pins: seq<Pin>, row: CellRow)
    requires row in rows
    requires forall p :: p in pins ==> Live(d, rows, p, false) && RawDeterminesMag(d, rows, p.col)
    ensures Matches(d, row, pins, false) ==> Matches(d, row, RoundTrip(d, rows, pins), false)
    ensures Matches(d, row, RoundTrip(d, rows, pins), false) <==> forall p :: p in pins ==> Akin(d, rows, p, row, true)
  {
    var t := RoundTrip(d, rows, pins);
    forall i | 0 <= i < |pins|
      ensures MatchesPin(d, row, t[i], false) <==> Akin(d, rows, pins[i], row, true)
      ensures MatchesPin(d, row, pins[i], false) ==> Akin(d, rows, pins[i], row, true)
    {
      assert pins[i] in pins;
      RoundTripOfPin(d, rows, pins[i], row);
    }
    if Matches(d, row, t, false) {
      forall p | p in pins
        ensures Akin(d, rows, p, row, true)
      {
        var i :| 0 <= i < |pins| && pins[i] == p;
        assert t[i] in t;
      }
    }
  }

  /** A second round trip changes nothing, not even the pins. */
  lemma {:induction false} RoundTripStable(d: Display, rows: seq<CellRow>, pins: seq<Pin>)
    requires forall p :: p in pins ==> Live(d, rows, p, false) && RawDeterminesMag(d, rows, p.col)
    ensures RoundTrip(d, rows, RoundTrip(d, rows, pins)) == RoundTrip(d, rows, pins)
  {
    var once := RoundTrip(d, rows, pins);
    var twice := RoundTrip(d, rows, once);
    forall i | 0 <= i < |pins|
      ensures twice[i] == once[i]
    {
      assert pins[i] in pins;
      RoundTripPinStable(d, rows, pins[i]);
    }
  }

  lemma {:induction false} RoundTripPinStable(d: Display, rows: seq<CellRow>, pin: Pin)
    requires Live(d, rows, pin, false) && RawDeterminesMag(d, rows, pin.col)
    ensures RoundTripPin(d, rows, RoundTripPin(d, rows, pin)) == RoundTripPin(d, rows, pin)
  {
    var back := RoundTripPin(d, rows, pin);
    RoundTripLive(d, rows, pin);
    LiveHasKeys(d, rows, pin, true);
    LiveHasKeys(d, rows, back, true);
    SameMagKeys(d, rows, pin);
  }

  lemma {:induction false} SameMagKeys(d: Display, rows: seq<CellRow>, pin: Pin)
    requires Live(d, rows, pin, false) && RawDeterminesMag(d, rows, pin.col)
    ensures NewKeys(d, rows, RoundTripPin(d, rows, pin), true) == NewKeys(d, rows, pin, true)
  {
    forall k
      ensures k in NewKeys(d, rows, RoundTripPin(d, rows, pin), true) <==> k in NewKeys(d, rows, pin, true)
    {
      SameMagKey(d, rows, pin, k);
    }
  }

  lemma {:induction false} SameMagKey(d: Display, rows: seq<CellRow>, pin: Pin, k: string)
    requires Live(d, rows, pin, false) && RawDeterminesMag(d, rows, pin.col)
    ensures k in NewKeys(d, rows, RoundTripPin(d, rows, pin), true) <==> k in NewKeys(d, rows, pin, true)
  {
    var back := RoundTripPin(d, rows, pin);
    if k in NewKeys(d, rows, back, true) {
      var s :| s in rows && MatchesPin(d, s, back, false) && k == CellDisplayValue(d, s[pin.col], true);
      RoundTripOfPin(d, rows, pin, s);
    }
    if k in NewKeys(d, rows, pin, true) {
      var r :| r in rows && MatchesPin(d, r, pin, false) && k == CellDisplayValue(d, r[pin.col], true);
      RoundTripOfPin(d, rows, pin, r);
    }
  }

  lemma LiveHasKeys(d: Display, rows: seq<CellRow>, pin: Pin, nowMag: bool)
    requires Live(d, rows, pin, !nowMag)
    ensures TranslatedPin(d, rows, pin, nowMag) == Pin(pin.col, NewKeys(d, rows, pin, nowMag))
  {
    var r :| r in rows && MatchesPin(d, r, pin, !nowMag);
    assert CellDisplayValue(d, r[pin.col], nowMag) in NewKeys(d, rows, pin, nowMag);
  }

  // ----- the row filter -----

  /** The elements whose flag is set, in order. */
  ghost function Select<T>(s: seq<T>, keep: seq<bool>): seq<T>
    requires |keep| == |s|
  {
    if s == [] then [] else
      var n := |s| - 1;
      Select(s[..n], keep[..n]) + if keep[n] then [s[n]] else []
  }

  /** The rows an active filter shows: the matching ones, or, inverted, the others. */
  ghost function KeepFlags(d: Display, rows: seq<CellRow>, pins: seq<Pin>, inverted: bool, magMode: bool): (keep: seq<bool>)
    ensures |keep| == |rows|
    ensures forall i :: 0 <= i < |rows| ==> keep[i] == (Matches(d, rows[i], pins, magMode) != inverted)
  {
    seq(|rows|, i requires 0 <= i < |rows| => Matches(d, rows[i], pins, magMode) != inverted)
  }

  /** Preview: the rows a filter would hide are dimmed. */
  ghost function Dimmed(meta: seq<RowMeta>, keep: seq<bool>): (m: seq<RowMeta>)
    requires |keep| == |meta|
    ensures |m| == |meta|
    ensures forall i :: 0 <= i < |meta| ==> m[i] == if keep[i] then meta[i] else meta[i].(dimmed := true)
  {
    seq(|meta|, i requires 0 <= i < |meta| => if keep[i] then meta[i] else meta[i].(dimmed := true))
  }

  /** The three full arrays of a tab describe the same rows. */
  ghost predicate Loaded(tab: Tab)
    reads tab`FullRows, tab`FullMeta, tab`FullCellRows
  {
    |tab.FullRows| == |tab.FullMeta| == |tab.FullCellRows|
  }

  /** The displayed rows of a tab are the loaded rows the flags keep. */
  ghost predicate Shows(tab: Tab, keep: seq<bool>)
    reads tab`FullRows, tab`FullMeta, tab`FullCellRows, tab`CellRows, tab`Rows, tab`TableRows
    requires Loaded(tab) && |keep| == |tab.FullRows|
  {
    && tab.CellRows == Select(tab.FullCellRows, keep)
    && tab.Rows == Select(tab.FullMeta, keep)
    && tab.TableRows == Select(tab.FullRows, keep)
  }

  /** The active filter: the three arrays are filtered in step. */
  method FilterRows(d: Display, tab: Tab, magMode: bool) returns (cells: seq<CellRow>, meta: seq<RowMeta>, rows: seq<TableRow>)
    requires Loaded(tab)
    ensures var keep := KeepFlags(d, tab.FullCellRows, tab.Pins, tab.FilterInverted, magMode);
            && cells == Select(tab.FullCellRows, keep)
            && meta == Select(tab.FullMeta, keep)
            && rows == Select(tab.FullRows, keep)
  {
    ghost var keep := KeepFlags(d, tab.FullCellRows, tab.Pins, tab.FilterInverted, magMode);
    cells, meta, rows := [], [], [];
    for i := 0 to |tab.FullCellRows|
      invariant cells == Select(tab.FullCellRows[..i], keep[..i])
      invariant meta == Select(tab.FullMeta[..i], keep[..i])
      invariant rows == Select(tab.FullRows[..i], keep[..i])
    {
      SelectStep(tab.FullCellRows, keep, i);
      SelectStep(tab.FullMeta, keep, i);
      SelectStep(tab.FullRows, keep, i);
      var hit := MatchesAllPins(d, tab.FullCellRows[i], tab.Pins, magMode);
      if hit != tab.FilterInverted {
        cells := cells + [tab.FullCellRows[i]];
        meta := meta + [tab.FullMeta[i]];
        rows := rows + [tab.FullRows[i]];
      }
    }
    SelectAll(tab.FullCellRows, keep);
    SelectAll(tab.FullMeta, keep);
    SelectAll(tab.FullRows, keep);
  }

  /** The preview: the rows an active filter would hide are dimmed, on a copy of the metadata. */
  method DimRows(d: Display, tab: Tab, magMode: bool) returns (meta: seq<RowMeta>)
    requires Loaded(tab)
    ensures meta == Dimmed(tab.FullMeta, KeepFlags(d, tab.FullCellRows, tab.Pins, tab.FilterInverted, magMode))
  {
    meta := tab.FullMeta;
    for i := 0 to |tab.FullCellRows|
      invariant |meta| == |tab.FullMeta|
      invariant forall j :: 0 <= j < i ==>
        (Matches(d, tab.FullCellRows[j], tab.Pins, magMode) != tab.FilterInverted ==> meta[j] == tab.FullMeta[j])
      invariant forall j :: 0 <= j < i ==>
        (Matches(d, tab.FullCellRows[j], tab.Pins, magMode) == tab.FilterInverted ==> meta[j] == tab.FullMeta[j].(dimmed := true))
      invariant forall j :: i <= j < |meta| ==> meta[j] == tab.FullMeta[j]
    {
      var hit := MatchesAllPins(d, tab.FullCellRows[i], tab.Pins, magMode);
      if hit == tab.FilterInverted {
        meta := meta[i := meta[i].(dimmed := true)];
      }
    }
  }

  /** The displayed rows follow from the loaded rows, the pins and the filter flags: all
      rows without pins, the kept ones under an active filter, else all with the others
      dimmed. */
  ghost predicate Displays(d: Display, tab: Tab, magMode: bool)
    reads tab`FullRows, tab`FullMeta, tab`FullCellRows, tab`CellRows, tab`Rows, tab`TableRows
    reads tab`Pins, tab`FilterActive, tab`FilterInverted
    requires Loaded(tab)
  {
    var keep := KeepFlags(d, tab.FullCellRows, tab.Pins, tab.FilterInverted, magMode);
    if tab.Pins == [] then
      tab.CellRows == tab.FullCellRows && tab.TableRows == tab.FullRows && tab.Rows == tab.FullMeta
    else if tab.FilterActive then
      Shows(tab, keep)
    else
      tab.CellRows == tab.FullCellRows && tab.TableRows == tab.FullRows && tab.Rows == Dimmed(tab.FullMeta, keep)
  }

  /** `applyRowFilter`. */
  method ApplyRowFilter(d: Display, tab: Tab, magMode: bool)
    requires Loaded(tab)
    modifies tab`CellRows, tab`Rows, tab`TableRows
    ensures Displays(d, tab, magMode)
  {
    if |tab.Pins| == 0 {
      tab.Rows, tab.CellRows, tab.TableRows := tab.FullMeta, tab.FullCellRows, tab.FullRows;
    } else if tab.FilterActive {
      var cells, meta, rows := FilterRows(d, tab, magMode);
      tab.Rows, tab.CellRows, tab.TableRows := meta, cells, rows;
    } else {
      var meta := DimRows(d, tab, magMode);
      tab.Rows, tab.CellRows, tab.TableRows := meta, tab.FullCellRows, tab.FullRows;
    }
  }

  /** `picked` are the elements of `s` at the places `at`, in order. */
  ghost predicate PickedAt<T>(s: seq<T>, picked: seq<T>, at: seq<nat>)
  {
    && |at| == |picked| && (forall i, j :: 0 <= i < j < |at| ==> at[i] < at[j])
    && forall i :: 0 <= i < |at| ==> at[i] < |s| && s[at[i]] == picked[i]
  }

  ghost predicate Places(keep: seq<bool>, at: seq<nat>)
  {
    forall k :: 0 <= k < |keep| ==> (k in at <==> keep[k])
  }

  lemma PickOneMore<T>(s: seq<T>, x: T, picked: seq<T>, at: seq<nat>)
    requires PickedAt(s, picked, at)
    ensures PickedAt(s + [x], picked, at) && PickedAt(s + [x], picked + [x], at + [|s|])
  {
    var more := s + [x];
    assert forall i :: 0 <= i < |at| ==> more[at[i]] == s[at[i]];
    assert more[|s|] == x;
  }

  lemma OnePlaceMore(keep: seq<bool>, kept: bool, at: seq<nat>)
    requires Places(keep, at) && forall i :: 0 <= i < |at| ==> at[i] < |keep|
    ensures Places(keep + [kept], if kept then at + [|keep|] else at)
  {
    assert forall k :: 0 <= k < |keep| ==> (keep + [kept])[k] == keep[k];
  }

  lemma SelectOneMore<T>(s: seq<T>, x: T, keep: seq<bool>, kept: bool, before: seq<nat>) returns (at: seq<nat>)
    requires |keep| == |s| && PickedAt(s, Select(s, keep), before) && Places(keep, before)
    ensures PickedAt(s + [x], Select(s + [x], keep + [kept]), at) && Places(keep + [kept], at)
  {
    at := if kept then before + [|s|] else before;
    PickOneMore(s, x, Select(s, keep), before);
    OnePlaceMore(keep, kept, before);
    assert (s + [x])[..|s|] == s && (keep + [kept])[..|s|] == keep;
    assert Select(s, keep) + [] == Select(s, keep);
  }

  /** Exactly the flagged elements are selected, in their order; `at` are their places. */
  lemma {:induction false} SelectExactly<T>(s: seq<T>, keep: seq<bool>) returns (at: seq<nat>)
    requires |keep| == |s|
    ensures PickedAt(s, Select(s, keep), at) && Places(keep, at)
  {
    if s == [] {
      at := [];
    } else {
      var n := |s| - 1;
      var before := SelectExactly(s[..n], keep[..n]);
      at := SelectOneMore(s[..n], s[n], keep[..n], keep[n], before);
      assert s[..n] + [s[n]] == s && keep[..n] + [keep[n]] == keep;
    }
  }

  lemma SelectStep<T>(s: seq<T>, keep: seq<bool>, i: nat)
    requires |keep| == |s| && i < |s|
    ensures Select(s[..i + 1], keep[..i + 1]) == Select(s[..i], keep[..i]) + if keep[i] then [s[i]] else []
  {
    assert s[..i + 1][..i] == s[..i] && keep[..i + 1][..i] == keep[..i];
  }

  lemma SelectAll<T>(s: seq<T>, keep: seq<bool>)
    requires |keep| == |s|
    ensures s[..|s|] == s && keep[..|s|] == keep
  {
  }

  /** A filter and its inversion share the rows out: every row is shown by exactly
      one of them. */
  lemma {:induction false} InversionShares(d: Display, rows: seq<CellRow>, pins: seq<Pin>, magMode: bool)
    ensures multiset(Select(rows, KeepFlags(d, rows, pins, false, magMode)))
          + multiset(Select(rows, KeepFlags(d, rows, pins, true, magMode))) == multiset(rows)
  {
    SelectShares(rows, KeepFlags(d, rows, pins, false, magMode), KeepFlags(d, rows, pins, true, magMode));
  }

  lemma OneShared<T>(s: seq<T>, a: seq<T>, b: seq<T>, kept: bool)
    requires s != [] && multiset(a) + multiset(b) == multiset(s[..|s| - 1])
    ensures multiset(a + if kept then [s[|s| - 1]] else []) + multiset(b + if !kept then [s[|s| - 1]] else []) == multiset(s)
  {
    var last := [s[|s| - 1]];
    assert s == s[..|s| - 1] + last;
    assert a + [] == a && b + [] == b;
    if kept {
      assert multiset(a + last) == multiset(a) + multiset(last);
    } else {
      assert multiset(b + last) == multiset(b) + multiset(last);
    }
  }

  lemma {:induction false} SelectShares<T>(s: seq<T>, keep: seq<bool>, drop: seq<bool>)
    requires |keep| == |drop| == |s| && forall i :: 0 <= i < |s| ==> keep[i] == !drop[i]
    ensures multiset(Select(s, keep)) + multiset(Select(s, drop)) == multiset(s)
  {
    if s != [] {
      var n := |s| - 1;
      SelectShares(s[..n], keep[..n], drop[..n]);
      OneShared(s, Select(s[..n], keep[..n]), Select(s[..n], drop[..n]), keep[n]);
    }
  }
}
