/**
 The selection ring of a menu (Nav_Menu.cpp): stepping to the next and to the previous item that
 has a text, in a menu of one ring.
 */
module NavMenus {
  const UINT16 := 0x1_0000

  /** Entries with no text, or the blank that stands for none, are passed over. */
  predicate Blank(text: string) {
    text == "" || text == " "
  }

  /** Entries are numbered from 1; 0 means nothing is selected. */
  predicate Populated(items: seq<string>, i: nat) {
    1 <= i <= |items| && !Blank(items[i - 1])
  }

  /** The entry `d` steps ahead of `s` on a ring of `n`; nothing selected counts as just before entry 1. */
  function Ahead(n: nat, s: nat, d: nat): (i: nat)
    requires s <= n && d <= n && (s > 0 || d > 0)
    ensures 1 <= i <= n
  {
    if s + d <= n then s + d else s + d - n
  }

  /** The entry `d` steps behind `s`; nothing selected counts as just after the last entry. */
  function Behind(n: nat, s: nat, d: nat): (i: nat)
    requires s <= n && d <= n && n > 0
    ensures 1 <= i <= n
  {
    var from := if s == 0 then 1 else s;
    if from > d then from - d else from - d + n
  }

  /** `t` is the first populated entry ahead of `s`, `d` steps away. */
  ghost predicate IsNext(items: seq<string>, s: nat, t: nat, d: nat)
    requires s <= |items|
  {
    && 1 <= d <= |items| && t == Ahead(|items|, s, d) && Populated(items, t)
    && forall e :: 1 <= e < d ==> !Populated(items, Ahead(|items|, s, e))
  }

  /** `t` is the first populated entry behind `s`, `d` steps away. */
  ghost predicate IsPrevious(items: seq<string>, s: nat, t: nat, d: nat)
    requires s <= |items|
  {
    && 1 <= d <= |items| && t == Behind(|items|, s, d) && Populated(items, t)
    && forall e :: 1 <= e < d ==> !Populated(items, Behind(|items|, s, e))
  }

  ghost predicate NonePopulated(items: seq<string>) {
    forall i :: 1 <= i <= |items| ==> !Populated(items, i)
  }

  /** Where increment takes the selection: to the next populated entry, and nowhere if there is none. */
  ghost predicate Incremented(items: seq<string>, s: nat, t: nat)
    requires s <= |items|
  {
    if NonePopulated(items) then t == (if items == [] then 0 else s) else exists d :: IsNext(items, s, t, d)
  }

  ghost predicate Decremented(items: seq<string>, s: nat, t: nat)
    requires s <= |items|
  {
    if NonePopulated(items) then t == (if items == [] then 0 else s) else exists d :: IsPrevious(items, s, t, d)
  }

  /** Walking all the way round meets every entry. */
  lemma RingCovers(n: nat, s: nat, i: nat) returns (ahead: nat, behind: nat)
    requires s <= n && 1 <= i <= n
    ensures 1 <= ahead <= n && Ahead(n, s, ahead) == i
    ensures 1 <= behind <= n && Behind(n, s, behind) == i
  {
    ahead := if i > s then i - s else i - s + n;
    var from := if s == 0 then 1 else s;
    behind := if from > i then from - i else from - i + n;
  }

  lemma AllBlank(items: seq<string>, s: nat)
    requires s <= |items|
    requires (forall d :: 1 <= d <= |items| ==> !Populated(items, Ahead(|items|, s, d)))
             || (forall d :: 1 <= d <= |items| ==> !Populated(items, Behind(|items|, s, d)))
    ensures NonePopulated(items)
  {
    forall i | 1 <= i <= |items|
      ensures !Populated(items, i)
    {
      var ahead, behind := RingCovers(|items|, s, i);
    }
  }

  lemma NotAllBlank(items: seq<string>, i: nat)
    requires Populated(items, i)
    ensures !NonePopulated(items)
  {
  }

  /** There is at most one next entry, and at most one previous one. */
  lemma NextUnique(items: seq<string>, s: nat, t: nat, t': nat, d: nat, d': nat)
    requires s <= |items|
    requires (IsNext(items, s, t, d) && IsNext(items, s, t', d')) || (IsPrevious(items, s, t, d) && IsPrevious(items, s, t', d'))
    ensures t == t'
  {
  }

  /** The next entry of a populated one has that as its previous entry, and conversely. */
  lemma Mirrored(items: seq<string>, s: nat, t: nat, d: nat)
    requires Populated(items, s) && Populated(items, t)
    ensures IsNext(items, s, t, d) <==> IsPrevious(items, t, s, d)
  {
    var n := |items|;
    if IsNext(items, s, t, d) {
      forall e | 1 <= e < d
        ensures !Populated(items, Behind(n, t, e))
      {
        assert Behind(n, t, e) == Ahead(n, s, d - e);
      }
    }
    if IsPrevious(items, t, s, d) {
      forall e | 1 <= e < d
        ensures !Populated(items, Ahead(n, s, e))
      {
        assert Ahead(n, s, e) == Behind(n, t, d - e);
      }
    }
  }

  /** From a populated entry increment and decrement undo one another. */
  lemma Undo(items: seq<string>, s: nat, t: nat, u: nat)
    requires Populated(items, s) && t <= |items|
    requires (Incremented(items, s, t) && Decremented(items, t, u)) || (Decremented(items, s, t) && Incremented(items, t, u))
    ensures u == s
  {
    NotAllBlank(items, s);
    if Incremented(items, s, t) && Decremented(items, t, u) {
      var d :| IsNext(items, s, t, d);
      var d' :| IsPrevious(items, t, u, d');
      Mirrored(items, s, t, d);
      NextUnique(items, t, s, u, d, d');
    } else {
      var d :| IsPrevious(items, s, t, d);
      var d' :| IsNext(items, t, u, d');
      Mirrored(items, t, s, d);
      NextUnique(items, t, s, u, d, d');
    }
  }

  class NavMenu {
    const items: array<string>
    const rows: nat
    const loop: bool
    var selected: nat

    ghost predicate Valid()
      reads this
    {
      selected <= items.Length < UINT16 - 1
    }

    /** Whether the entries form one ring rather than two columns. */
    predicate SingleRing(twoRowSupport: bool) {
      rows == items.Length || rows != 2 || loop || !twoRowSupport
    }

    constructor (length: nat, rows: nat, loop: bool)
      requires length < UINT16 - 1
      ensures Valid() && selected == 0 && items.Length == length && this.loop == loop && this.rows == if rows > 0 then rows else 1
      ensures NonePopulated(items[..]) && fresh(items)
    {
      items := new string[length](_ => "");
      this.rows := if rows > 0 then rows else 1;
      this.loop := loop;
      selected := 0;
    }

    method SetItem(text: string, item: nat)
      requires Valid()
      modifies items
      ensures item >= items.Length ==> items[..] == old(items[..])
      ensures item < items.Length ==>
                items[..] == old(items[..])[item := items[item]] && Blank(items[item]) == Blank(text)
                && (text != "" ==> items[item] == text)
    {
      if item >= items.Length {
        return;
      }
      items[item] := if text == "" then " " else text;
    }

    method SetSelected(s: nat)
      requires Valid()
      modifies this`selected
      ensures Valid() && selected == if s > items.Length then old(selected) else s
    {
      if s > items.Length {
        return;
      }
      selected := s;
    }

    method IncrementSelected(twoRowSupport: bool) returns (ghost steps: nat)
      requires Valid() && (items.Length > 0 ==> SingleRing(twoRowSupport))
      modifies this`selected
      ensures Valid() && Incremented(items[..], old(selected), selected)
      ensures steps <= 2 * items.Length
    {
      steps := 0;
      if items.Length == 0 {
        SetSelected(0);
        return;
      }
      ghost var texts := items[..];
      var length := items.Length;
      var newSelected := selected + 1;
      if newSelected > length {
        newSelected := 1;
      }
      ghost var start := newSelected;
      var loop := false;
      while Blank(items[newSelected - 1]) && newSelected <= length
        invariant 1 <= newSelected <= length && items[..] == texts && selected == old(selected)
        invariant newSelected == if loop then start + steps - length else start + steps
        invariant steps < 2 * length
        invariant newSelected == Ahead(length, selected, if steps < length then steps + 1 else steps + 1 - length)
        invariant forall e :: 1 <= e <= steps && e <= length ==> !Populated(texts, Ahead(length, selected, e))
        decreases 2 * length - steps
      {
        newSelected := newSelected + 1;
        steps := steps + 1;
        if newSelected > length && !loop {
          newSelected := 1;
          loop := true;
        } else if newSelected > length {
          AllBlank(texts, selected);
          return;
        }
      }
      assert Populated(texts, newSelected);
      NotAllBlank(texts, newSelected);
      if newSelected > length {
        newSelected := 1;
      }
      assert IsNext(texts, selected, newSelected, steps + 1);
      SetSelected(newSelected);
    }

    method DecrementSelected(twoRowSupport: bool) returns (ghost steps: nat)
      requires Valid() && (items.Length > 0 ==> SingleRing(twoRowSupport))
      modifies this`selected
      ensures Valid() && Decremented(items[..], old(selected), selected)
      ensures steps <= 2 * items.Length
    {
      steps := 0;
      if items.Length == 0 {
        SetSelected(0);
        return;
      }
      ghost var texts := items[..];
      var length := items.Length;
      var newSelected := (selected + UINT16 - 1) % UINT16;
      if newSelected < 1 || selected < 1 {
        newSelected := length;
      }
      ghost var start := newSelected;
      var loop := false;
      while Blank(items[newSelected - 1]) && newSelected >= 1
        invariant 1 <= newSelected <= length && items[..] == texts && selected == old(selected)
        invariant newSelected == if loop then start - steps + length else start - steps
        invariant steps < 2 * length
        invariant newSelected == Behind(length, selected, if steps < length then steps + 1 else steps + 1 - length)
        invariant forall e :: 1 <= e <= steps && e <= length ==> !Populated(texts, Behind(length, selected, e))
        decreases 2 * length - steps
      {
        newSelected := newSelected - 1;
        steps := steps + 1;
        if newSelected < 1 && !loop {
          newSelected := length;
          loop := true;
        } else if newSelected < 1 {
          AllBlank(texts, selected);
          return;
        }
      }
      assert Populated(texts, newSelected);
      NotAllBlank(texts, newSelected);
      assert IsPrevious(texts, selected, newSelected, steps + 1);
      SetSelected(newSelected);
    }
  }
}
