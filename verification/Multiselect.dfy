/** The selection and filter logic of the bootstrap multiselect widget, in multiple mode: a flat list
    of rows, each with a check box, that mirrors the options of a select element. */
module Multiselect {

  /** What a row of the list is.  Items and headers carry a value. */
  datatype Kind = Search | SelectAll | Header(value: string) | Item(value: string)

  /** The first index of a value, or -1. */
  function IndexOf<T(==)>(values: seq<T>, v: T): (r: int)
    ensures r == -1 ==> v !in values
    ensures r != -1 ==> 0 <= r < |values| && values[r] == v && v !in values[..r]
  {
    if values == [] then -1
    else if values[0] == v then 0
    else
      var r := IndexOf(values[1..], v);
      assert r != -1 ==> values[..r + 1] == [values[0]] + values[1..][..r];
      if r == -1 then -1 else r + 1
  }

  /** The nearest header before row `i`, or -1. */
  function HeaderOf(kinds: seq<Kind>, i: nat): (h: int)
    requires i <= |kinds|
    ensures -1 <= h < i && (h != -1 ==> kinds[h].Header?)
    ensures forall j :: h < j < i ==> !kinds[j].Header?
  {
    if i == 0 then -1
    else if kinds[i - 1].Header? then i - 1
    else HeaderOf(kinds, i - 1)
  }

  /** Whether the filter is to show a row: an item that matches or whose group matches, a header that
      matches or one of whose items does. */
  ghost predicate Shown(kinds: seq<Kind>, matches: seq<bool>, i: nat)
    requires i < |kinds| == |matches|
  {
    matches[i] ||
    if kinds[i].Header? then exists j :: i < j < |kinds| && kinds[j].Item? && HeaderOf(kinds, j) == i && matches[j]
    else HeaderOf(kinds, i) != -1 && matches[HeaderOf(kinds, i)]
  }

  /** The same for a row before row `n`, as far as the rows before row `n` tell. */
  ghost predicate ShownBy(kinds: seq<Kind>, matches: seq<bool>, i: nat, n: nat)
    requires i < n <= |kinds| == |matches|
  {
    matches[i] ||
    if kinds[i].Header? then exists j :: i < j < n && kinds[j].Item? && HeaderOf(kinds, j) == i && matches[j]
    else HeaderOf(kinds, i) != -1 && matches[HeaderOf(kinds, i)]
  }

  lemma ShownStep(kinds: seq<Kind>, matches: seq<bool>, n: nat)
    requires n < |kinds| == |matches|
    ensures HeaderOf(kinds, n + 1) == if kinds[n].Header? then n else HeaderOf(kinds, n)
    ensures forall i :: 0 <= i < n ==>
      (ShownBy(kinds, matches, i, n + 1) <==>
         ShownBy(kinds, matches, i, n) || (kinds[n].Item? && matches[n] && HeaderOf(kinds, n) == i && kinds[i].Header?))
    ensures !kinds[n].Header? ==>
      (ShownBy(kinds, matches, n, n + 1) <==> matches[n] || (HeaderOf(kinds, n) != -1 && matches[HeaderOf(kinds, n)]))
    ensures kinds[n].Header? ==> (ShownBy(kinds, matches, n, n + 1) <==> matches[n])
  {
  }

  lemma ShownByAll(kinds: seq<Kind>, matches: seq<bool>)
    requires |kinds| == |matches|
    ensures forall i :: 0 <= i < |kinds| ==> (ShownBy(kinds, matches, i, |kinds|) <==> Shown(kinds, matches, i))
  {
  }

  class List {
    const kinds: seq<Kind>
    const values: seq<string>         // the values of the options
    const selectAllValue: string
    var search: string                // the text in the search box
    const hidden: array<bool>         // rows hidden by the filter
    const disabled: array<bool>
    const checked: array<bool>
    const selected: array<bool>       // the state of the options

    /** Each option has exactly one row, and no other row has its value. */
    ghost predicate Valid()
      reads this
    {
      && hidden.Length == disabled.Length == checked.Length == |kinds|
      && selected.Length == |values|
      && hidden != disabled && hidden != checked && hidden != selected
      && disabled != checked && disabled != selected && checked != selected
      && selectAllValue !in values
      && (forall i, j :: 0 <= i < j < |values| ==> values[i] != values[j])
      && (forall i :: 0 <= i < |kinds| && kinds[i].Item? ==> kinds[i].value in values)
      && (forall i, j :: 0 <= i < j < |kinds| && kinds[i].Item? && kinds[j].Item? ==> kinds[i].value != kinds[j].value)
      && (forall i :: 0 <= i < |kinds| && kinds[i].Header? ==> kinds[i].value !in values && kinds[i].value != selectAllValue)
      && (forall o :: 0 <= o < |values| ==> Item(values[o]) in kinds)
      // the search box and the select-all row are prepended to the list
      && (forall i, j :: 0 <= i < j < |kinds| && (kinds[i].Item? || kinds[i].Header?) ==>
            kinds[j].Item? || kinds[j].Header?)
    }

    /** A list as it is built for options none of which is selected or disabled. */
    constructor (kinds: seq<Kind>, values: seq<string>, selectAllValue: string)
      ensures this.kinds == kinds && this.values == values && this.selectAllValue == selectAllValue && search == ""
      ensures hidden.Length == disabled.Length == checked.Length == |kinds| && selected.Length == |values|
      ensures fresh(hidden) && fresh(disabled) && fresh(checked) && fresh(selected)
      ensures hidden != disabled && hidden != checked && hidden != selected
      ensures disabled != checked && disabled != selected && checked != selected
      ensures forall i :: 0 <= i < |kinds| ==> !hidden[i] && !disabled[i] && !checked[i]
      ensures forall o :: 0 <= o < |values| ==> !selected[o]
    {
      this.kinds, this.values, this.selectAllValue, search := kinds, values, selectAllValue, "";
      hidden := new bool[|kinds|](_ => false);
      disabled := new bool[|kinds|](_ => false);
      checked := new bool[|kinds|](_ => false);
      selected := new bool[|values|](_ => false);
    }

    /** The value of a row's input. */
    function ValueOf(i: nat): string
      requires i < |kinds|
      reads this
    {
      match kinds[i]
      case Search => search
      case SelectAll => selectAllValue
      case Header(v) => v
      case Item(v) => v
    }

    /** Every row is checked just if its option is selected. */
    ghost predicate Mirror()
      requires Valid()
      reads this, checked, selected
    {
      forall i, o :: 0 <= i < |kinds| && 0 <= o < |values| && kinds[i] == Item(values[o]) ==> checked[i] == selected[o]
    }

    /** The row with an option's value, and the option with a row's value. */
    lemma Lookup(v: string)
      requires Valid()
      ensures v in values ==> IndexOf(kinds, Item(v)) != -1 && values[IndexOf(values, v)] == v
      ensures forall i :: 0 <= i < |kinds| && kinds[i] == Item(v) ==> IndexOf(kinds, Item(v)) == i && v in values
      ensures forall o :: 0 <= o < |values| && values[o] == v ==> IndexOf(values, v) == o
    {
    }

    /** `getOptionByValue` */
    method GetOptionByValue(v: string) returns (o: int)
      ensures o == IndexOf(values, v)
    {
      for i := 0 to |values|
        invariant v !in values[..i]
      {
        if values[i] == v {
          IndexIs(values, v, i);
          return i;
        }
      }
      assert values[..|values|] == values;
      return -1;
    }

    /** `getInputByValue`: the first check box with a value. */
    method GetInputByValue(v: string) returns (i: int)
      requires Valid()
      ensures v in values ==> i == IndexOf(kinds, Item(v))
      ensures i != -1 ==> 0 <= i < |kinds|
    {
      Lookup(v);
      for k := 0 to |kinds|
        invariant v in values ==> k <= IndexOf(kinds, Item(v))
      {
        if !kinds[k].Search? && ValueOf(k) == v {
          return k;
        }
      }
      return -1;
    }

    // ---- Updates that concern no item ----------------------------------------------------------

    /** A row that the select-all row stands for. */
    predicate Boxed(i: nat)
      requires i < |kinds| && hidden.Length == disabled.Length == |kinds|
      reads this, hidden, disabled
    {
      kinds[i].Item? && !hidden[i] && !disabled[i]
    }

    /** There are such rows, and all of them are marked. */
    ghost predicate AllBoxed(marks: seq<bool>)
      requires |marks| == |kinds| && hidden.Length == disabled.Length == |kinds|
      reads this, hidden, disabled
    {
      (exists k :: 0 <= k < |kinds| && Boxed(k)) && forall k :: 0 <= k < |kinds| && Boxed(k) ==> marks[k]
    }

    lemma SameBoxed(a: seq<bool>, b: seq<bool>)
      requires |a| == |b| == |kinds| && hidden.Length == disabled.Length == |kinds|
      requires forall k :: 0 <= k < |kinds| && kinds[k].Item? ==> a[k] == b[k]
      ensures AllBoxed(a) == AllBoxed(b)
    {
    }

    /** The select-all row tells whether all the rows it stands for are checked. */
    ghost predicate SelectAllTells()
      requires Valid()
      reads this, hidden, disabled, checked
    {
      forall i :: 0 <= i < |kinds| && kinds[i].SelectAll? ==> checked[i] == AllBoxed(checked[..])
    }

    /** Every header tells whether the rows of its group are checked. */
    ghost predicate HeadersTell()
      requires Valid()
      reads this, hidden, disabled, checked
    {
      Told(checked[..])
    }

    ghost predicate Told(marks: seq<bool>)
      requires |marks| == |kinds| && hidden.Length == disabled.Length == |kinds|
      reads this, hidden, disabled
    {
      forall i :: 0 <= i < |kinds| && kinds[i].Header? ==> marks[i] == GroupTicked(i, marks)
    }

    /** In full: the select-all row is checked just if there are items that are neither filtered out nor
        disabled and all of them are checked, a header just if all such items of its group are. */
    lemma TellMeaning()
      requires Valid()
      ensures SelectAllTells() <==> forall i :: 0 <= i < |kinds| && kinds[i].SelectAll? ==>
        (checked[i] <==>
           && (exists k :: 0 <= k < |kinds| && kinds[k].Item? && !hidden[k] && !disabled[k])
           && (forall k :: 0 <= k < |kinds| && kinds[k].Item? && !hidden[k] && !disabled[k] ==> checked[k]))
      ensures HeadersTell() <==> forall i :: 0 <= i < |kinds| && kinds[i].Header? ==>
        (checked[i] <==>
           forall k :: i < k < |kinds| && HeaderOf(kinds, k) == i && kinds[k].Item? && !hidden[k] && !disabled[k] ==> checked[k])
    {
      hide HeaderOf;
      assert forall k :: 0 <= k < |kinds| ==> (Boxed(k) <==> kinds[k].Item? && !hidden[k] && !disabled[k]);
    }

    method CountBoxes() returns (every: bool)
      requires Valid()
      ensures every == AllBoxed(checked[..])
    {
      var all, ticked := 0, 0;
      for i := 0 to |kinds|
        invariant 0 <= ticked <= all
        invariant all > 0 <==> exists k :: 0 <= k < i && Boxed(k)
        invariant ticked == all <==> forall k :: 0 <= k < i && Boxed(k) ==> checked[k]
      {
        if Boxed(i) {
          all := all + 1;
          if checked[i] {
            ticked := ticked + 1;
          }
        }
      }
      return ticked > 0 && ticked == all;
    }

    /** `updateSelectAll` */
    method UpdateSelectAll()
      requires Valid()
      modifies checked
      ensures forall i :: 0 <= i < |kinds| ==>
        checked[i] == if kinds[i].SelectAll? then AllBoxed(old(checked[..])) else old(checked[i])
      ensures SelectAllTells() && (old(HeadersTell()) ==> HeadersTell())
    {
      hide AllBoxed, GroupTicked;
      var every := CountBoxes();
      for i := 0 to |kinds|
        invariant forall k :: 0 <= k < |kinds| ==>
          checked[k] == if k < i && kinds[k].SelectAll? then every else old(checked[k])
      {
        if kinds[i].SelectAll? {
          checked[i] := every;
        }
      }
      SameBoxed(checked[..], old(checked[..]));
      SameGroups(checked[..], old(checked[..]));
    }

    /** No row of a header's group that takes part is unmarked. */
    ghost predicate GroupTicked(i: nat, marks: seq<bool>)
      requires |marks| == |kinds| && hidden.Length == disabled.Length == |kinds|
      reads this, hidden, disabled
    {
      forall k :: i < k < |kinds| && HeaderOf(kinds, k) == i && Boxed(k) ==> marks[k]
    }

    method CheckGroup(i: nat) returns (all: bool)
      requires Valid() && i < |kinds| && kinds[i].Header?
      ensures all == GroupTicked(i, checked[..])
    {
      hide HeaderOf;
      all := true;
      var k := i + 1;
      HeaderNext(i);
      while k < |kinds| && !kinds[k].Header?
        invariant i < k <= |kinds| && HeaderOf(kinds, k) == i
        invariant all <==> forall j :: i < j < k && HeaderOf(kinds, j) == i && Boxed(j) ==> checked[j]
      {
        GroupRow(k);
        if !hidden[k] && !disabled[k] && !checked[k] {
          all := false;
        }
        HeaderNext(k);
        k := k + 1;
      }
      GroupEnds(i, k);
    }

    /** `updateOptGroups`: the headers show whether their groups are checked. */
    method UpdateOptGroups()
      requires Valid()
      modifies checked
      ensures forall i :: 0 <= i < |kinds| ==>
        checked[i] == if kinds[i].Header? then GroupTicked(i, old(checked[..])) else old(checked[i])
      ensures HeadersTell() && (old(SelectAllTells()) ==> SelectAllTells())
    {
      hide GroupTicked, HeaderOf, AllBoxed;
      for i := 0 to |kinds|
        invariant forall k :: 0 <= k < |kinds| ==>
          checked[k] == if k < i && kinds[k].Header? then GroupTicked(k, old(checked[..])) else old(checked[k])
      {
        if kinds[i].Header? {
          var all := CheckGroup(i);
          SameGroup(i, checked[..], old(checked[..]));
          checked[i] := all;
        }
      }
      SameBoxed(checked[..], old(checked[..]));
      SameGroups(checked[..], old(checked[..]));
    }

    lemma SameGroup(i: nat, a: seq<bool>, b: seq<bool>)
      requires |a| == |b| == |kinds| && hidden.Length == disabled.Length == |kinds|
      requires forall k :: 0 <= k < |kinds| && kinds[k].Item? ==> a[k] == b[k]
      ensures GroupTicked(i, a) == GroupTicked(i, b)
    {
    }

    lemma SameGroups(a: seq<bool>, b: seq<bool>)
      requires |a| == |b| == |kinds| && hidden.Length == disabled.Length == |kinds|
      requires forall k :: 0 <= k < |kinds| && kinds[k].Item? ==> a[k] == b[k]
      ensures forall i: nat :: GroupTicked(i, a) == GroupTicked(i, b)
    {
      hide GroupTicked;
      forall i: nat ensures GroupTicked(i, a) == GroupTicked(i, b) {
        SameGroup(i, a, b);
      }
    }

    lemma HeaderNext(i: nat)
      requires i < |kinds|
      ensures HeaderOf(kinds, i + 1) == if kinds[i].Header? then i else HeaderOf(kinds, i)
    {
    }

    /** A row of a group that is not a header is an item. */
    lemma GroupRow(k: nat)
      requires Valid() && k < |kinds| && HeaderOf(kinds, k) != -1 && !kinds[k].Header?
      ensures kinds[k].Item?
    {
    }

    /** The group of a header ends before the next header. */
    lemma {:induction false} GroupEnds(i: nat, k: nat)
      requires i < k <= |kinds| && (k < |kinds| ==> kinds[k].Header?)
      ensures forall j :: k < j < |kinds| ==> HeaderOf(kinds, j) != i
      ensures k < |kinds| ==> !kinds[k].Item?
    {
    }

    // ---- Selecting -----------------------------------------------------------------------------

    /** `select` and `deselect`: sets the options with the given values and their rows. */
    method Select(wanted: seq<string>, on: bool)
      requires Valid() && Mirror()
      modifies checked, selected
      ensures Mirror() && SelectAllTells() && HeadersTell()
      ensures forall o :: 0 <= o < |values| ==> selected[o] == if values[o] in wanted then on else old(selected[o])
    {
      hide AllBoxed, GroupTicked, SelectAllTells, HeadersTell;
      for i := 0 to |wanted|
        invariant Mirror()
        invariant forall o :: 0 <= o < |values| ==> selected[o] == if values[o] in wanted[..i] then on else old(selected[o])
      {
        var v := wanted[i];
        var option := GetOptionByValue(v);
        var checkbox := GetInputByValue(v);
        assert wanted[..i + 1] == wanted[..i] + [v];
        if option == -1 || checkbox == -1 {
          Lookup(v);
          continue;
        }
        SetBoth(v, option, checkbox, on);
      }
      assert wanted[..|wanted|] == wanted;
      UpdateSelectAll();
      UpdateOptGroups();
    }

    /** Setting an option together with its row keeps the mirror. */
    method SetBoth(v: string, option: nat, checkbox: nat, on: bool)
      requires Valid() && Mirror()
      requires v in values && option == IndexOf(values, v) && checkbox == IndexOf(kinds, Item(v))
      modifies checked, selected
      ensures Mirror()
      ensures forall o :: 0 <= o < |values| ==> selected[o] == if values[o] == v then on else old(selected[o])
      ensures forall i :: 0 <= i < |kinds| ==> checked[i] == if kinds[i] == Item(v) then on else old(checked[i])
    {
      Lookup(v);
      checked[checkbox] := on;
      selected[option] := on;
    }

    /** A row that the bulk operations reach: not a header, not disabled and, if only visible rows are
        meant, neither filtered out nor otherwise invisible. */
    predicate Reached(i: nat, justVisible: bool, displayed: seq<bool>)
      requires i < |kinds| == |displayed| && hidden.Length == disabled.Length == |kinds|
      reads this, hidden, disabled
    {
      !kinds[i].Header? && !disabled[i] && (justVisible ==> !hidden[i] && displayed[i])
    }

    lemma ReachedMeaning(justVisible: bool, displayed: seq<bool>)
      requires Valid() && |kinds| == |displayed|
      ensures forall i :: 0 <= i < |kinds| && kinds[i].Item? ==>
        (Reached(i, justVisible, displayed) <==> !disabled[i] && (!justVisible || (!hidden[i] && displayed[i])))
      ensures forall v :: SearchHit(v, justVisible, displayed) ==> search == v
    {
    }

    /** Before row `n` there is a row that is reached, takes part and has an option's value. */
    ghost predicate Hit(v: string, n: nat, on: bool, justVisible: bool, displayed: seq<bool>)
      requires n <= |kinds| == |displayed| && hidden.Length == disabled.Length == |kinds|
      reads this, hidden, disabled
    {
      exists i :: 0 <= i < n && Reached(i, justVisible, displayed) && (on || !kinds[i].Search?) && ValueOf(i) == v
    }

    /** A search box that is reached shows an option's value. */
    ghost predicate SearchHit(v: string, justVisible: bool, displayed: seq<bool>)
      requires |kinds| == |displayed| && hidden.Length == disabled.Length == |kinds|
      reads this, hidden, disabled
    {
      search == v && exists i :: 0 <= i < |kinds| && kinds[i].Search? && Reached(i, justVisible, displayed)
    }

    lemma HitMeaning(v: string, on: bool, justVisible: bool, displayed: seq<bool>, row: nat)
      requires Valid() && |kinds| == |displayed| && v in values && row < |kinds| && kinds[row] == Item(v)
      ensures Hit(v, |kinds|, on, justVisible, displayed)
              <==> Reached(row, justVisible, displayed) || (on && SearchHit(v, justVisible, displayed))
    {
      if on && SearchHit(v, justVisible, displayed) {
        var i :| 0 <= i < |kinds| && kinds[i].Search? && Reached(i, justVisible, displayed);
        assert ValueOf(i) == v;
      }
      if Reached(row, justVisible, displayed) {
        assert ValueOf(row) == v;
      }
    }

    lemma NoHitYet(on: bool, justVisible: bool, displayed: seq<bool>)
      requires |displayed| == |kinds| && hidden.Length == disabled.Length == |kinds|
      ensures forall v :: !Hit(v, 0, on, justVisible, displayed)
    {
    }

    lemma HitNext(i: nat, on: bool, justVisible: bool, displayed: seq<bool>)
      requires |displayed| == |kinds| && hidden.Length == disabled.Length == |kinds| && i < |kinds|
      ensures forall v ::
        (Hit(v, i + 1, on, justVisible, displayed) <==>
           || Hit(v, i, on, justVisible, displayed)
           || (Reached(i, justVisible, displayed) && (on || !kinds[i].Search?) && ValueOf(i) == v))
    {
      forall v | Hit(v, i + 1, on, justVisible, displayed)
        ensures Hit(v, i, on, justVisible, displayed)
                || (Reached(i, justVisible, displayed) && (on || !kinds[i].Search?) && ValueOf(i) == v)
      {
        var k :| 0 <= k < i + 1 && Reached(k, justVisible, displayed) && (on || !kinds[k].Search?) && ValueOf(k) == v;
        if k < i {
          assert Hit(v, i, on, justVisible, displayed);
        }
      }
    }

    /** The first half of `selectAll` and `deselectAll`: the check boxes. */
    method SetBoxes(on: bool, justVisible: bool, displayed: seq<bool>)
      requires Valid() && |displayed| == |kinds|
      modifies checked
      ensures forall i :: 0 <= i < |kinds| ==>
        checked[i] == if Reached(i, justVisible, displayed) && (on || !kinds[i].Search?) then on else old(checked[i])
    {
      for i := 0 to |kinds|
        invariant forall k :: 0 <= k < |kinds| ==>
          checked[k] == if k < i && Reached(k, justVisible, displayed) && (on || !kinds[k].Search?) then on else old(checked[k])
      {
        if Reached(i, justVisible, displayed) && (on || !kinds[i].Search?) {
          checked[i] := on;
        }
      }
    }

    /** The second half: the options. */
    method SetOptions(on: bool, justVisible: bool, displayed: seq<bool>)
      requires Valid() && |displayed| == |kinds|
      modifies selected
      ensures forall o :: 0 <= o < |values| ==>
        selected[o] == if Hit(values[o], |kinds|, on, justVisible, displayed) then on else old(selected[o])
    {
      hide Hit, Reached, IndexOf;
      NoHitYet(on, justVisible, displayed);
      for i := 0 to |kinds|
        invariant forall o :: 0 <= o < |values| ==>
          selected[o] == if Hit(values[o], i, on, justVisible, displayed) then on else old(selected[o])
      {
        HitNext(i, on, justVisible, displayed);
        if Reached(i, justVisible, displayed) && (on || !kinds[i].Search?) {
          var option := GetOptionByValue(ValueOf(i));
          Lookup(ValueOf(i));
          if option != -1 {
            selected[option] := on;
          }
        }
      }
    }

    method TickSelectAll(on: bool)
      requires Valid()
      modifies checked
      ensures forall i :: 0 <= i < |kinds| ==> checked[i] == if kinds[i].SelectAll? then on else old(checked[i])
    {
      for i := 0 to |kinds|
        invariant forall k :: 0 <= k < |kinds| ==> checked[k] == if k < i && kinds[k].SelectAll? then on else old(checked[k])
      {
        if kinds[i].SelectAll? {
          checked[i] := on;
        }
      }
    }

    /** The rows of items and the options, before the other rows follow. */
    method SetItems(on: bool, justVisible: bool, displayed: seq<bool>)
      requires Valid() && |displayed| == |kinds|
      modifies checked, selected
      ensures forall i :: 0 <= i < |kinds| && kinds[i].Item? ==>
        checked[i] == if Reached(i, justVisible, displayed) then on else old(checked[i])
      ensures forall i, o :: 0 <= i < |kinds| && 0 <= o < |values| && kinds[i] == Item(values[o]) ==>
        selected[o] == if Reached(i, justVisible, displayed) || (on && SearchHit(values[o], justVisible, displayed))
                       then on else old(selected[o])
    {
      hide HeaderOf, IndexOf, Reached, Hit, SearchHit;
      SetBoxes(on, justVisible, displayed);
      SetOptions(on, justVisible, displayed);
      forall i, o | 0 <= i < |kinds| && 0 <= o < |values| && kinds[i] == Item(values[o])
        ensures selected[o] == if Reached(i, justVisible, displayed) || (on && SearchHit(values[o], justVisible, displayed))
                               then on else old(selected[o])
      {
        HitMeaning(values[o], on, justVisible, displayed, i);
      }
    }

    /** `selectAll` and `deselectAll`: every row that is reached gets the new state, and so does its
        option; disabled rows and their options stay as they are, unless the search box is in the way:
        selecting all takes the text in it for the value of a row.  The mirror survives if and only if
        the option of that value, if there is one, was selected or its row is reached anyway. */
    method SetAll(on: bool, justVisible: bool, displayed: seq<bool>)
      requires Valid() && Mirror() && |displayed| == |kinds|
      modifies checked, selected
      ensures HeadersTell() && forall i :: 0 <= i < |kinds| && kinds[i].SelectAll? ==> checked[i] == on
      ensures forall i :: 0 <= i < |kinds| && kinds[i].Item? ==>
        checked[i] == if Reached(i, justVisible, displayed) then on else old(checked[i])
      ensures forall i, o :: 0 <= i < |kinds| && 0 <= o < |values| && kinds[i] == Item(values[o]) ==>
        selected[o] == if Reached(i, justVisible, displayed) || (on && SearchHit(values[o], justVisible, displayed))
                       then on else old(selected[o])
      ensures Mirror() <==> forall i, o ::
        (0 <= i < |kinds| && 0 <= o < |values| && kinds[i] == Item(values[o]) && on && SearchHit(values[o], justVisible, displayed))
        ==> Reached(i, justVisible, displayed) || old(checked[i])
      ensures forall i :: 0 <= i < |kinds| && kinds[i].Item? ==>
        checked[i] == if !disabled[i] && (!justVisible || (!hidden[i] && displayed[i])) then on else old(checked[i])
      ensures forall i, o :: 0 <= i < |kinds| && 0 <= o < |values| && kinds[i] == Item(values[o]) && search != values[o] ==>
        selected[o] == if !disabled[i] && (!justVisible || (!hidden[i] && displayed[i])) then on else old(selected[o])
    {
      hide HeaderOf, GroupTicked, AllBoxed, SelectAllTells, HeadersTell, SearchHit, Reached;
      ReachedMeaning(justVisible, displayed);
      SetItems(on, justVisible, displayed);
      TickSelectAll(on);
      UpdateOptGroups();
    }

    /** The change of a single row by the user.  The row of an item changes its option.  The select-all
        row stands for all visible rows, or for all: its change is the bulk operation. */
    method ChangeRow(i: nat, on: bool, selectAllJustVisible: bool, displayed: seq<bool>)
      requires Valid() && Mirror() && |displayed| == |kinds| && i < |kinds| && (kinds[i].Item? || kinds[i].SelectAll?)
      modifies checked, selected
      ensures HeadersTell()
      ensures kinds[i].Item? ==> Mirror() && SelectAllTells()
      ensures kinds[i].Item? ==> forall o :: 0 <= o < |values| ==>
        selected[o] == if values[o] == kinds[i].value then on else old(selected[o])
      ensures kinds[i].SelectAll? ==> checked[i] == on
      ensures kinds[i].SelectAll? ==> forall k :: 0 <= k < |kinds| && kinds[k].Item? ==>
        checked[k] == if Reached(k, selectAllJustVisible, displayed) then on else old(checked[k])
      ensures kinds[i].SelectAll? ==> forall k, o :: 0 <= k < |kinds| && 0 <= o < |values| && kinds[k] == Item(values[o]) ==>
        selected[o] == if Reached(k, selectAllJustVisible, displayed) || (on && SearchHit(values[o], selectAllJustVisible, displayed))
                       then on else old(selected[o])
      ensures kinds[i].SelectAll? ==> (Mirror() <==> forall k, o ::
        (0 <= k < |kinds| && 0 <= o < |values| && kinds[k] == Item(values[o])
         && on && SearchHit(values[o], selectAllJustVisible, displayed))
        ==> Reached(k, selectAllJustVisible, displayed) || old(checked[k]))
      ensures kinds[i].SelectAll? ==> forall k, o ::
        0 <= k < |kinds| && 0 <= o < |values| && kinds[k] == Item(values[o]) && search != values[o] ==>
          selected[o] == if !disabled[k] && (!selectAllJustVisible || (!hidden[k] && displayed[k])) then on else old(selected[o])
    {
      hide Reached, SearchHit, Hit, Boxed, AllBoxed, GroupTicked, HeaderOf, SelectAllTells, HeadersTell;
      if kinds[i].SelectAll? {
        checked[i] := on;
        SetAll(on, selectAllJustVisible, displayed);
      } else {
        var v := ValueOf(i);
        Lookup(v);
        var option := GetOptionByValue(v);
        SetBoth(v, option, i, on);
        UpdateSelectAll();
        UpdateOptGroups();
      }
    }

    /** The header that was changed and the rows that follow it. */
    method SetGroup(h: nat, on: bool)
      requires Valid() && Mirror() && h < |kinds| && kinds[h].Header?
      modifies checked, selected
      ensures Mirror() && checked[h] == on
      ensures forall i :: 0 <= i < |kinds| && kinds[i].Header? && i != h ==> checked[i] == old(checked[i])
      ensures forall i, o :: 0 <= i < |kinds| && 0 <= o < |values| && kinds[i] == Item(values[o]) ==>
        selected[o] == if HeaderOf(kinds, i) == h && !hidden[i] && !disabled[i] then on else old(selected[o])
    {
      hide HeaderOf, IndexOf;
      checked[h] := on;
      var k := h + 1;
      HeaderNext(h);
      HeadersBefore(h);
      while k < |kinds| && !kinds[k].Header?
        invariant h < k <= |kinds| && HeaderOf(kinds, k) == h
        invariant Mirror() && checked[h] == on
        invariant forall i :: 0 <= i < |kinds| && kinds[i].Header? && i != h ==> checked[i] == old(checked[i])
        invariant forall i, o :: 0 <= i < |kinds| && 0 <= o < |values| && kinds[i] == Item(values[o]) ==>
          selected[o] == if i < k && HeaderOf(kinds, i) == h && !hidden[i] && !disabled[i] then on else old(selected[o])
      {
        GroupRow(k);
        SetMember(k, on);
        HeaderNext(k);
        k := k + 1;
      }
      GroupEnds(h, k);
    }

    /** One row of the group. */
    method SetMember(k: nat, on: bool)
      requires Valid() && Mirror() && k < |kinds| && kinds[k].Item?
      modifies checked, selected
      ensures Mirror() && forall i :: 0 <= i < |kinds| && kinds[i].Header? ==> checked[i] == old(checked[i])
      ensures forall o :: 0 <= o < |values| ==>
        selected[o] == if kinds[k] == Item(values[o]) && !hidden[k] && !disabled[k] then on else old(selected[o])
    {
      var v := ValueOf(k);
      Lookup(v);
      if !hidden[k] && !disabled[k] {
        var option := GetOptionByValue(v);
        SetBoth(v, option, k, on);
      }
    }

    /** The change of a header by the user: the rows of its group that are neither filtered out nor
        disabled follow it.  Unchecking a header none of whose rows takes part leaves it out of step with
        its group, since a group without such rows counts as checked. */
    method ChangeGroup(h: nat, on: bool)
      requires Valid() && Mirror() && h < |kinds| && kinds[h].Header?
      modifies checked, selected
      ensures Mirror() && SelectAllTells() && checked[h] == on
      ensures old(HeadersTell()) ==>
        (HeadersTell() <==> on || exists k :: 0 <= k < |kinds| && HeaderOf(kinds, k) == h && Boxed(k))
      ensures forall i, o :: 0 <= i < |kinds| && 0 <= o < |values| && kinds[i] == Item(values[o]) ==>
        selected[o] == if HeaderOf(kinds, i) == h && !hidden[i] && !disabled[i] then on else old(selected[o])
    {
      hide HeaderOf, AllBoxed, GroupTicked, SelectAllTells, Told;
      SetGroup(h, on);
      UpdateSelectAll();
      if old(HeadersTell()) {
        ItemsFollow(h, on, old(checked[..]), old(selected[..]));
        HeadersAfter(h, on, old(checked[..]), checked[..]);
      }
    }

    /** By the mirror, what happened to the options happened to the rows. */
    lemma ItemsFollow(h: nat, on: bool, a: seq<bool>, was: seq<bool>)
      requires Valid() && Mirror() && |a| == |kinds| && |was| == |values|
      requires forall i, o :: 0 <= i < |kinds| && 0 <= o < |values| && kinds[i] == Item(values[o]) ==> a[i] == was[o]
      requires forall i, o :: 0 <= i < |kinds| && 0 <= o < |values| && kinds[i] == Item(values[o]) ==>
        selected[o] == if HeaderOf(kinds, i) == h && !hidden[i] && !disabled[i] then on else was[o]
      ensures forall i :: 0 <= i < |kinds| && kinds[i].Item? ==>
        checked[i] == if HeaderOf(kinds, i) == h && !hidden[i] && !disabled[i] then on else a[i]
    {
      hide HeaderOf;
      forall i | 0 <= i < |kinds| && kinds[i].Item?
        ensures checked[i] == if HeaderOf(kinds, i) == h && !hidden[i] && !disabled[i] then on else a[i]
      {
        var o :| 0 <= o < |values| && values[o] == kinds[i].value;
        assert kinds[i] == Item(values[o]);
      }
    }

    /** What a header's change, which takes the marks from `a` to `b`, does to what the headers tell. */
    lemma HeadersAfter(h: nat, on: bool, a: seq<bool>, b: seq<bool>)
      requires Valid() && h < |kinds| == |a| == |b| && kinds[h].Header? && b[h] == on
      requires forall i :: 0 <= i < |kinds| && kinds[i].Header? && i != h ==> b[i] == a[i]
      requires forall i :: 0 <= i < |kinds| && kinds[i].Item? ==>
        b[i] == if HeaderOf(kinds, i) == h && !hidden[i] && !disabled[i] then on else a[i]
      requires Told(a)
      ensures Told(b) <==> on || exists k :: 0 <= k < |kinds| && HeaderOf(kinds, k) == h && Boxed(k)
    {
      hide HeaderOf;
      forall i | 0 <= i < |kinds| && kinds[i].Header? && i != h ensures GroupTicked(i, b) == GroupTicked(i, a) {
      }
    }

    lemma HeadersBefore(h: nat)
      requires h < |kinds|
      ensures forall i :: 0 <= i <= h ==> HeaderOf(kinds, i) < h
    {
    }

    /** `refresh`: brings the rows in line with the options, whatever state they were in. */
    method Refresh(optDisabled: seq<bool>)
      requires Valid() && |optDisabled| == |values|
      modifies checked, disabled
      ensures Mirror() && SelectAllTells() && HeadersTell()
      ensures forall i, o :: 0 <= i < |kinds| && 0 <= o < |values| && kinds[i] == Item(values[o]) ==> disabled[i] == optDisabled[o]
      ensures forall i :: 0 <= i < |kinds| && !kinds[i].Item? ==> disabled[i] == old(disabled[i])
    {
      hide IndexOf, HeaderOf, AllBoxed, GroupTicked, SelectAllTells, HeadersTell;
      for o := 0 to |values|
        invariant forall i, k :: 0 <= i < |kinds| && 0 <= k < o && kinds[i] == Item(values[k]) ==>
          checked[i] == selected[k] && disabled[i] == optDisabled[k]
        invariant forall i :: 0 <= i < |kinds| && !kinds[i].Item? ==> disabled[i] == old(disabled[i])
      {
        var i := LastInput(values[o]);
        Lookup(values[o]);
        checked[i] := selected[o];
        disabled[i] := optDisabled[o];
      }
      UpdateSelectAll();
      UpdateOptGroups();
    }

    /** The table that `refresh` makes of the inputs: the last one with a value. */
    method LastInput(v: string) returns (i: nat)
      requires Valid() && v in values
      ensures i < |kinds| && kinds[i] == Item(v)
    {
      Lookup(v);
      ghost var row := IndexOf(kinds, Item(v));
      i := 0;
      for k := 0 to |kinds|
        invariant row < k ==> i == row
      {
        if ValueOf(k) == v {
          i := k;
        }
      }
    }

    // ---- The filter ----------------------------------------------------------------------------

    /** The filter pass.  Rows other than headers and items do not take part: the select-all row and
        rows without a label. */
    method Filter(matches: seq<bool>)
      requires hidden.Length == |matches| == |kinds|
      modifies hidden
      ensures forall i :: 0 <= i < |kinds| && (kinds[i].Header? || kinds[i].Item?) ==>
        hidden[i] == !Shown(kinds, matches, i)
      ensures forall i :: 0 <= i < |kinds| && !kinds[i].Header? && !kinds[i].Item? ==> hidden[i] == old(hidden[i])
    {
      hide HeaderOf, ShownBy, Shown;
      var currentGroup, currentGroupVisible := -1, false;
      NoHeaderYet(kinds);
      for i := 0 to |kinds|
        invariant currentGroup == HeaderOf(kinds, i)
        invariant -1 <= currentGroup < i && (currentGroup != -1 ==> kinds[currentGroup].Header?)
        invariant currentGroupVisible == (currentGroup != -1 && matches[currentGroup])
        invariant forall k :: 0 <= k < i && (kinds[k].Header? || kinds[k].Item?) ==>
          hidden[k] == !ShownBy(kinds, matches, k, i)
        invariant forall k :: 0 <= k < |kinds| && !kinds[k].Header? && !kinds[k].Item? ==> hidden[k] == old(hidden[k])
      {
        ShownStep(kinds, matches, i);
        if kinds[i].Header? || kinds[i].Item? {
          var showElement := matches[i];
          hidden[i] := !showElement;
          if kinds[i].Header? {
            currentGroup, currentGroupVisible := i, showElement;
          } else {
            if showElement && currentGroup != -1 {
              hidden[currentGroup] := false;
            }
            if !showElement && currentGroupVisible {
              hidden[i] := false;
            }
          }
        }
      }
      ShownByAll(kinds, matches);
    }

    /** What follows a change of the search text: the filter pass, and the updates that it calls for.
        The selection stays as it is. */
    method ApplyFilter(matches: seq<bool>)
      requires Valid() && Mirror() && |matches| == |kinds|
      modifies hidden, checked
      ensures Mirror() && SelectAllTells() && HeadersTell()
      ensures forall i :: 0 <= i < |kinds| && (kinds[i].Header? || kinds[i].Item?) ==>
        hidden[i] == !Shown(kinds, matches, i)
      ensures forall i :: 0 <= i < |kinds| && !kinds[i].Header? && !kinds[i].Item? ==> hidden[i] == old(hidden[i])
    {
      hide HeaderOf, Shown, AllBoxed, GroupTicked, SelectAllTells, HeadersTell;
      Filter(matches);
      UpdateSelectAll();
      UpdateOptGroups();
    }

    // ---- All runs ------------------------------------------------------------------------------

    /** The state of the list at a moment. */
    ghost function Now(): (s: Snapshot)
      reads this, hidden, disabled, selected
      ensures |s.hidden| == hidden.Length && |s.disabled| == disabled.Length && |s.selected| == selected.Length
    {
      Snapshot(search, hidden[..], disabled[..], selected[..])
    }

    ghost predicate Fits(s: Snapshot) {
      |s.hidden| == |s.disabled| == |kinds| && |s.selected| == |values|
    }

    /** A bulk operation sets every option whose row is enabled and, if only visible rows are meant, neither
        filtered out nor otherwise invisible; the others stay as they are. */
    ghost predicate BulkSets(s: Snapshot, t: Snapshot, on: bool, justVisible: bool, displayed: seq<bool>)
      requires Fits(s) && Fits(t) && |displayed| == |kinds|
    {
      forall i, o :: 0 <= i < |kinds| && 0 <= o < |values| && kinds[i] == Item(values[o]) ==>
        t.selected[o] == if !s.disabled[i] && (!justVisible || (!s.hidden[i] && displayed[i])) then on else s.selected[o]
    }

    /** What an operation does to the options: the operation leads from one state to another. */
    ghost predicate Follows(op: Op, s: Snapshot, t: Snapshot)
      requires Applies(op) && Fits(s) && Fits(t)
    {
      match op
      case Pick(wanted, on) =>
        t == s.(selected := t.selected)
        && forall o :: 0 <= o < |values| ==> t.selected[o] == if values[o] in wanted then on else s.selected[o]
      case Bulk(on, justVisible, displayed) =>
        t == s.(selected := t.selected) && BulkSets(s, t, on, justVisible, displayed)
      case Toggle(row, on, justVisible, displayed) =>
        t == s.(selected := t.selected)
        && if kinds[row].SelectAll? then BulkSets(s, t, on, justVisible, displayed)
           else forall o :: 0 <= o < |values| ==> t.selected[o] == if kinds[row] == Item(values[o]) then on else s.selected[o]
      case ToggleGroup(h, on) =>
        t == s.(selected := t.selected)
        && forall i, o :: 0 <= i < |kinds| && 0 <= o < |values| && kinds[i] == Item(values[o]) ==>
             t.selected[o] == if HeaderOf(kinds, i) == h && !s.hidden[i] && !s.disabled[i] then on else s.selected[o]
      case Refreshed(optDisabled) =>
        t == s.(disabled := t.disabled)
        && (forall i :: 0 <= i < |kinds| && !kinds[i].Item? ==> t.disabled[i] == s.disabled[i])
        && forall i, o :: 0 <= i < |kinds| && 0 <= o < |values| && kinds[i] == Item(values[o]) ==>
             t.disabled[i] == optDisabled[o]
      case Typed(text) => t == s.(search := text)
      case Filtered(matches) =>
        t == s.(hidden := t.hidden)
        && (forall i :: 0 <= i < |kinds| && (kinds[i].Header? || kinds[i].Item?) ==> t.hidden[i] == !Shown(kinds, matches, i))
        && forall i :: 0 <= i < |kinds| && !kinds[i].Header? && !kinds[i].Item? ==> t.hidden[i] == s.hidden[i]
    }

    method ExecuteBulk(on: bool, justVisible: bool, displayed: seq<bool>)
      requires Valid() && Mirror() && search !in values && |displayed| == |kinds|
      modifies checked, selected
      ensures Mirror() && BulkSets(old(Now()), Now(), on, justVisible, displayed)
    {
      hide IndexOf, HeaderOf, Boxed, Reached, Hit, SearchHit, GroupTicked, AllBoxed, SelectAllTells, HeadersTell, Told;
      NoSearchHit();
      SetAll(on, justVisible, displayed);
    }

    method ExecuteToggle(row: nat, on: bool, justVisible: bool, displayed: seq<bool>)
      requires Valid() && Mirror() && search !in values && |displayed| == |kinds|
      requires row < |kinds| && (kinds[row].Item? || kinds[row].SelectAll?)
      modifies checked, selected
      ensures Mirror()
      ensures kinds[row].SelectAll? ==> BulkSets(old(Now()), Now(), on, justVisible, displayed)
      ensures kinds[row].Item? ==> forall o :: 0 <= o < |values| ==>
        selected[o] == if kinds[row] == Item(values[o]) then on else old(selected[o])
    {
      hide IndexOf, HeaderOf, Boxed, Reached, Hit, SearchHit, GroupTicked, AllBoxed, SelectAllTells, HeadersTell, Told;
      NoSearchHit();
      ChangeRow(row, on, justVisible, displayed);
    }

    /** Executes one operation. */
    method Execute(op: Op)
      requires Valid() && Mirror() && search !in values && Applies(op)
      modifies this`search, hidden, disabled, checked, selected
      ensures Valid() && Mirror() && search !in values
      ensures Follows(op, old(Now()), Now())
    {
      hide IndexOf, HeaderOf, Shown, Boxed, Reached, Hit, SearchHit, GroupTicked, AllBoxed, SelectAllTells, HeadersTell, Told;
      match op
      case Pick(wanted, on) => Select(wanted, on);
      case Bulk(on, justVisible, displayed) => ExecuteBulk(on, justVisible, displayed);
      case Toggle(row, on, justVisible, displayed) => ExecuteToggle(row, on, justVisible, displayed);
      case ToggleGroup(h, on) => ChangeGroup(h, on);
      case Refreshed(optDisabled) => Refresh(optDisabled);
      case Typed(text) => search := text;
      case Filtered(matches) => ApplyFilter(matches);
    }

    /** Executes any sequence of operations.  The mirror is kept as long as no text is put into the
        search box that is an option's value, and every operation does to the options what it is meant
        to: `states` has the state before and after each of them. */
    method Run(ops: seq<Op>) returns (ghost states: seq<Snapshot>)
      requires Valid() && Mirror() && search !in values
      requires forall op :: op in ops ==> Applies(op)
      modifies this`search, hidden, disabled, checked, selected
      ensures Valid() && Mirror()
      ensures |states| == |ops| + 1 && states[0] == old(Now()) && states[|ops|] == Now()
      ensures forall s :: s in states ==> Fits(s)
      ensures forall i :: 0 <= i < |ops| ==> Follows(ops[i], states[i], states[i + 1])
    {
      hide Follows, Mirror, Applies;
      states := [Now()];
      for i := 0 to |ops|
        invariant Valid() && Mirror() && search !in values
        invariant |states| == i + 1 && states[0] == old(Now()) && states[i] == Now()
        invariant forall s :: s in states ==> Fits(s)
        invariant forall k :: 0 <= k < i ==> Follows(ops[k], states[k], states[k + 1])
      {
        assert ops[i] in ops;
        Execute(ops[i]);
        states := states + [Now()];
      }
    }

    lemma NoSearchHit()
      requires search !in values && hidden.Length == disabled.Length == |kinds|
      ensures forall v, justVisible, displayed :: v in values && |displayed| == |kinds| ==> !SearchHit(v, justVisible, displayed)
    {
    }

    /** The operation is one that this list offers. */
    predicate Applies(op: Op) {
      match op
      case Pick(_, _) => true
      case Bulk(_, _, displayed) => |displayed| == |kinds|
      case Toggle(row, _, _, displayed) =>
        |displayed| == |kinds| && row < |kinds| && (kinds[row].Item? || kinds[row].SelectAll?)
      case ToggleGroup(h, _) => h < |kinds| && kinds[h].Header?
      case Refreshed(optDisabled) => |optDisabled| == |values|
      case Typed(text) => text !in values
      case Filtered(matches) => |matches| == |kinds|
    }
  }

  /** The search text, the rows that are filtered out or disabled, and the options that are selected. */
  datatype Snapshot = Snapshot(search: string, hidden: seq<bool>, disabled: seq<bool>, selected: seq<bool>)

  /** The operations of the widget. */
  datatype Op =
    | Pick(wanted: seq<string>, on: bool)
    | Bulk(on: bool, justVisible: bool, displayed: seq<bool>)
    | Toggle(row: nat, on: bool, justVisible: bool, displayed: seq<bool>)
    | ToggleGroup(header: nat, on: bool)
    | Refreshed(optDisabled: seq<bool>)
    | Typed(text: string)
    | Filtered(matches: seq<bool>)

  /** Selecting all takes the text in the search box for the value of a row: here it selects the one
      option although its row is disabled, and the row stays unchecked. */
  method SearchTextSelects() returns (list: List)
    ensures fresh(list) && list.Valid() && !list.Mirror()
    ensures list.kinds == [Search, Item("a")] && list.values == ["a"] && list.search == "a" && list.disabled[1]
  {
    list := new List([Search, Item("a")], ["a"], "all");
    assert list.kinds[1] == Item(list.values[0]);
    list.Refresh([true]);
    list.search := "a";
    list.SetAll(true, false, [true, true]);
    assert list.kinds[0].Search? && list.Reached(0, false, [true, true]);
    assert list.SearchHit("a", false, [true, true]);
  }

  /** Unchecking a header whose only row is disabled: by the rule its group counts as checked. */
  method HeaderOutOfStep() returns (list: List)
    ensures fresh(list) && list.Valid() && list.Mirror() && !list.HeadersTell()
    ensures list.kinds == [Header("g"), Item("a")] && list.values == ["a"] && list.disabled[1] && !list.checked[0]
  {
    list := new List([Header("g"), Item("a")], ["a"], "all");
    assert list.kinds[1] == Item(list.values[0]);
    list.Refresh([true]);
    list.ChangeGroup(0, false);
  }

  lemma NoHeaderYet(kinds: seq<Kind>)
    ensures HeaderOf(kinds, 0) == -1
  {
  }

  lemma {:induction false} IndexIs<T>(values: seq<T>, v: T, i: nat)
    requires i < |values| && values[i] == v && v !in values[..i]
    ensures IndexOf(values, v) == i
  {
    if i != 0 {
      assert values[..i] == [values[0]] + values[1..][..i - 1];
      IndexIs(values[1..], v, i - 1);
    }
  }
}
