/**
 What a row of records means for each field by itself: an array holds the items of its records in
 order, the last record of a singular field counts, a record of a union deselects the other members,
 and nothing depends on records of other fields or on fields that the descriptor does not have.
 */
module PbFieldwise {
  import opened Wrappers
  import opened Coding
  import opened PbMessages
  import opened PbDecode
  import opened PbMessageDecode
  import opened PbRows

  // ---------------------------------------------------------------- one field at a time

  /** What a field has come to: its slot, and of an array of fixed count whether it is being filled
      and how many items it has. */
  datatype Filling = Filling(s: Slot, open: bool, n: nat)

  /** The field takes a record of its own. */
  ghost function Own(f: Field, x: Filling, p: Piece): Option<Filling> {
    var unselected := f.rule.OneOf? && f.kind.KMessage? && x.s.Maybe? && !x.s.has;
    var s := if unselected then Maybe(false, DefaultValue(f.kind)) else x.s;
    var d := Deposit(f, s, SizeSoFar(f, s, x.n), p);
    if d.None? then None else Some(Filling(d.value.0, f.rule.FixedCount?, if f.rule.FixedCount? then d.value.1 else 0))
  }

  /** The field at `k` when a record of the field at `j` comes: an array of fixed count must be full
      before another one begins, and members of a union exclude each other. */
  ghost function Other(fields: Fields, k: nat, j: nat, x: Filling): Option<Filling>
    requires k < |fields| && j < |fields|
  {
    if fields[k].rule.FixedCount? && fields[j].rule.FixedCount? then
      (if x.open && x.n != fields[k].rule.count then None else Some(Filling(x.s, false, 0)))
    else if SameUnion(fields[j], fields[k]) && x.s.Maybe? then Some(x.(s := Maybe(false, x.s.v)))
    else Some(x)
  }

  ghost function Step(fields: Fields, k: nat, x: Filling, r: Rec): Option<Filling>
    requires k < |fields|
  {
    if !r.Known? || r.k >= |fields| then Some(x)
    else if r.k == k then Own(fields[k], x, r.p)
    else Other(fields, k, r.k, x)
  }

  ghost function Steps(fields: Fields, k: nat, x: Filling, row: Row, i: nat): Option<Filling>
    requires k < |fields|
    decreases |row| - i
  {
    if i >= |row| then Some(x)
    else
      var y := Step(fields, k, x, row[i]);
      if y.None? then None else Steps(fields, k, y.value, row, i + 1)
  }

  /** An array of fixed count that is being filled is full. */
  ghost predicate Full(f: Field, x: Filling) {
    f.rule.FixedCount? && x.open ==> x.n == f.rule.count
  }

  /** What a row makes of the slot of field `k`. */
  ghost function FieldMeans(fields: Fields, k: nat, s: Slot, row: Row): Option<Slot>
    requires k < |fields|
  {
    var x := Steps(fields, k, Filling(s, false, 0), row, 0);
    if x.None? || !Full(fields[k], x.value) then None else Some(x.value.s)
  }

  ghost function View(st: Progressing, k: nat): Filling
    requires k < |st.slots|
  {
    if st.fixedField == Some(k) then Filling(st.slots[k], true, st.fixedSize) else Filling(st.slots[k], false, 0)
  }

  ghost predicate Named(fields: Fields, st: Progressing) {
    |st.slots| == |fields| && (st.fixedField.Some? ==> st.fixedField.value < |fields| && fields[st.fixedField.value].rule.FixedCount?)
  }

  /** Field `k` sees the record as a field by itself would. */
  ghost predicate Sees(fields: Fields, st: Progressing, r: Rec, next: Progressing, k: nat)
    requires k < |fields| == |st.slots| == |next.slots|
  {
    Step(fields, k, View(st, k), r) == Some(View(next, k))
  }

  lemma SizeMatters(f: Field, s: Slot, size: nat, other: nat, p: Piece)
    requires !IsArray(f) && GoodPiece(f, p)
    ensures var d, e := Deposit(f, s, size, p), Deposit(f, s, other, p); (d.Some? <==> e.Some?) && (d.Some? ==> d.value.0 == e.value.0)
  {
  }

  lemma EnteredOwn(fields: Fields, st: Progressing, k: nat, entered: Progressing)
    requires Named(fields, st) && k < |fields| && Enter(fields, st, k) == Some(entered)
    ensures Named(fields, entered)
    ensures var f, x := fields[k], View(st, k);
      && entered.slots[k] == (if f.rule.OneOf? && f.kind.KMessage? && x.s.Maybe? && !x.s.has then Maybe(false, DefaultValue(f.kind)) else x.s)
      && (f.rule.FixedCount? ==> entered.fixedField == Some(k) && entered.fixedSize == x.n)
      && (!f.rule.FixedCount? ==> entered.fixedField == st.fixedField && entered.fixedSize == st.fixedSize)
  {
  }

  /** The field a record belongs to takes it as it would by itself. */
  lemma OwnRecord(fields: Fields, st: Progressing, k: nat, p: Piece, entered: Progressing)
    requires Named(fields, st) && k < |fields| && GoodPiece(fields[k], p) && Enter(fields, st, k) == Some(entered)
    ensures var next := Take(fields, st, Known(k, p));
      if next.None? then Own(fields[k], View(st, k), p).None?
      else Named(fields, next.value) && Own(fields[k], View(st, k), p) == Some(View(next.value, k))
  {
    var f := fields[k];
    EnteredOwn(fields, st, k, entered);
    if !IsArray(f) { SizeMatters(f, entered.slots[k], SizeSoFar(f, entered.slots[k], entered.fixedSize), View(st, k).n, p); }
  }

  lemma OtherRecord(fields: Fields, st: Progressing, j: nat, p: Piece, entered: Progressing, next: Progressing, k: nat)
    requires Named(fields, st) && j < |fields| && k < |fields| && k != j
    requires Enter(fields, st, j) == Some(entered) && Take(fields, st, Known(j, p)) == Some(next)
    ensures |next.slots| == |fields| && Other(fields, k, j, View(st, k)) == Some(View(next, k))
  {
    assert entered.slots == Prepared(fields, st.slots, j);
  }

  /** A record is taken exactly if every field can take it, and each as if alone. */
  lemma TakeIsFieldwise(fields: Fields, st: Progressing, r: Rec) returns (bad: nat)
    requires Named(fields, st) && GoodRec(fields, r)
    ensures var next := Take(fields, st, r);
      if next.None? then bad < |fields| && Step(fields, bad, View(st, bad), r).None?
      else Named(fields, next.value) && forall k {:trigger Sees(fields, st, r, next.value, k)} :: 0 <= k < |fields| ==> Sees(fields, st, r, next.value, k)
  {
    bad := if r.Known? then r.k else 0;
    if r.Known? {
      var entered := Enter(fields, st, r.k);
      if entered.None? {
        bad := st.fixedField.value;
      } else {
        OwnRecord(fields, st, r.k, r.p, entered.value);
        var next := Take(fields, st, r);
        if next.Some? {
          forall k {:trigger Sees(fields, st, r, next.value, k)} | 0 <= k < |fields| ensures Sees(fields, st, r, next.value, k) {
            if k != r.k { OtherRecord(fields, st, r.k, r.p, entered.value, next.value, k); }
          }
        }
      }
    }
  }

  // ---------------------------------------------------------------- whole rows

  /** Field `k` comes out of the records from `i` on as if alone. */
  ghost predicate SeesAll(fields: Fields, st: Progressing, row: Row, i: nat, end: Progressing, k: nat)
    requires k < |fields| == |st.slots| == |end.slots|
  {
    Steps(fields, k, View(st, k), row, i) == Some(View(end, k))
  }

  lemma {:induction false} RowIsFieldwise(fields: Fields, st: Progressing, row: Row, i: nat) returns (bad: nat)
    requires Named(fields, st) && GoodRow(fields, row)
    ensures var end := TakeAll(fields, st, row, i);
      if end.None? then bad < |fields| && Steps(fields, bad, View(st, bad), row, i).None?
      else
        && Named(fields, end.value)
        && forall k {:trigger SeesAll(fields, st, row, i, end.value, k)} :: 0 <= k < |fields| ==> SeesAll(fields, st, row, i, end.value, k)
    decreases |row| - i
  {
    bad := 0;
    if i < |row| {
      assert GoodRec(fields, row[i]);
      bad := TakeIsFieldwise(fields, st, row[i]);
      var next := Take(fields, st, row[i]);
      if next.Some? {
        bad := RowIsFieldwise(fields, next.value, row, i + 1);
        if bad < |fields| { assert Sees(fields, st, row[i], next.value, bad); }
        var end := TakeAll(fields, next.value, row, i + 1);
        if end.Some? {
          forall k {:trigger SeesAll(fields, st, row, i, end.value, k)} | 0 <= k < |fields| ensures SeesAll(fields, st, row, i, end.value, k) {
            assert Sees(fields, st, row[i], next.value, k) && SeesAll(fields, next.value, row, i + 1, end.value, k);
          }
        }
      }
    }
  }

  /** The records from `i` on have one of field `k`. */
  ghost predicate Comes(row: Row, i: nat, k: nat) {
    exists m {:trigger row[m]} :: i <= m < |row| && row[m].Known? && row[m].k == k
  }

  /** The required fields, as far as there is room to note them, all have records. */
  ghost predicate RequiredCome(fields: Fields, row: Row) {
    forall k {:trigger fields[k]} :: 0 <= k < |fields| && fields[k].rule.Required? && RequiredBefore(fields, k) < MAX_REQUIRED_FIELDS ==> Comes(row, 0, k)
  }

  lemma {:induction false} RequiredBeforeGrows(fields: Fields, i: nat, k: nat)
    requires i <= k <= |fields|
    ensures RequiredBefore(fields, i) <= RequiredBefore(fields, k)
    ensures i < k && fields[i].rule.Required? ==> RequiredBefore(fields, i) < RequiredBefore(fields, k)
    decreases k
  {
    if i < k { RequiredBeforeGrows(fields, i, k - 1); }
  }

  /** The record notes required field `k`. */
  ghost predicate NotedAt(fields: Fields, row: Row, m: nat, r: nat)
    requires m < |row|
  {
    && row[m].Known? && row[m].k < |fields| && fields[row[m].k].rule.Required?
    && RequiredBefore(fields, row[m].k) == r < MAX_REQUIRED_FIELDS
  }

  ghost function NotedBy(fields: Fields, r: Rec): set<nat> {
    if r.Known? && r.k < |fields| && fields[r.k].rule.Required? && RequiredBefore(fields, r.k) < MAX_REQUIRED_FIELDS then {RequiredBefore(fields, r.k)} else {}
  }

  lemma TakeNotes(fields: Fields, st: Progressing, r: Rec)
    requires GoodRec(fields, r)
    ensures var next := Take(fields, st, r);
      next.Some? ==> next.value.seen == st.seen + NotedBy(fields, r)
  {
  }

  /** What has been seen at the end is what had been and what the records note. */
  lemma {:induction false} SeenAtEnd(fields: Fields, st: Progressing, row: Row, i: nat, r: nat)
    requires GoodRow(fields, row) && TakeAll(fields, st, row, i).Some?
    ensures r in TakeAll(fields, st, row, i).value.seen <==>
      r in st.seen || exists m {:trigger NotedAt(fields, row, m, r)} :: i <= m < |row| && NotedAt(fields, row, m, r)
    decreases |row| - i
  {
    if i < |row| {
      assert GoodRec(fields, row[i]);
      TakeNotes(fields, st, row[i]);
      SeenAtEnd(fields, Take(fields, st, row[i]).value, row, i + 1, r);
      assert NotedAt(fields, row, i, r) <==> r in Take(fields, st, row[i]).value.seen - st.seen || (r in st.seen && NotedAt(fields, row, i, r));
    }
  }

  lemma SeenIsRequired(fields: Fields, slots: seq<Slot>, row: Row, end: Progressing)
    requires GoodRow(fields, row) && TakeAll(fields, Start(slots), row, 0) == Some(end)
    ensures (forall r :: 0 <= r < RequiredBefore(fields, |fields|) && r < MAX_REQUIRED_FIELDS ==> r in end.seen) <==> RequiredCome(fields, row)
  {
    if RequiredCome(fields, row) {
      forall r | 0 <= r < RequiredBefore(fields, |fields|) && r < MAX_REQUIRED_FIELDS ensures r in end.seen {
        var k := EveryIndexIsUsed(fields, |fields|, r);
        assert fields[k].rule.Required? && Comes(row, 0, k);
        var m :| 0 <= m < |row| && row[m].Known? && row[m].k == k;
        assert NotedAt(fields, row, m, r);
        SeenAtEnd(fields, Start(slots), row, 0, r);
      }
    }
    if forall r :: 0 <= r < RequiredBefore(fields, |fields|) && r < MAX_REQUIRED_FIELDS ==> r in end.seen {
      forall k {:trigger fields[k]} | 0 <= k < |fields| && fields[k].rule.Required? && RequiredBefore(fields, k) < MAX_REQUIRED_FIELDS
        ensures Comes(row, 0, k)
      {
        SeenComes(fields, slots, row, end, k);
      }
    }
  }

  lemma SeenComes(fields: Fields, slots: seq<Slot>, row: Row, end: Progressing, k: nat)
    requires GoodRow(fields, row) && TakeAll(fields, Start(slots), row, 0) == Some(end)
    requires k < |fields| && fields[k].rule.Required? && RequiredBefore(fields, k) < MAX_REQUIRED_FIELDS
    requires forall r :: 0 <= r < RequiredBefore(fields, |fields|) && r < MAX_REQUIRED_FIELDS ==> r in end.seen
    ensures Comes(row, 0, k)
  {
    var r := RequiredBefore(fields, k);
    RequiredBeforeGrows(fields, k, |fields|);
    SeenAtEnd(fields, Start(slots), row, 0, r);
    var m :| 0 <= m < |row| && NotedAt(fields, row, m, r);
    RequiredBeforeGrows(fields, if k < row[m].k then k else row[m].k, if k < row[m].k then row[m].k else k);
    assert row[m].k == k;
  }

  /** The slot of field `k` is what the row makes of it. */
  ghost predicate Meant(fields: Fields, slots: seq<Slot>, row: Row, result: seq<Slot>, k: nat)
    requires k < |fields| == |slots| == |result|
  {
    FieldMeans(fields, k, slots[k], row) == Some(result[k])
  }

  ghost predicate AllMeant(fields: Fields, slots: seq<Slot>, row: Row, result: seq<Slot>)
    requires |slots| == |fields|
  {
    |result| == |fields| && forall k {:trigger Meant(fields, slots, row, result, k)} :: 0 <= k < |fields| ==> Meant(fields, slots, row, result, k)
  }

  /** A row is accepted exactly if the required fields come and every field by itself can take its
      records; the struct is then what each field makes of the row by itself. */
  lemma RowMeansFieldByField(fields: Fields, slots: seq<Slot>, row: Row) returns (bad: nat)
    requires GoodRow(fields, row) && |slots| == |fields|
    ensures var m := Meaning(fields, slots, row);
      if m.None? then !RequiredCome(fields, row) || (bad < |fields| && FieldMeans(fields, bad, slots[bad], row).None?)
      else RequiredCome(fields, row) && AllMeant(fields, slots, row, m.value)
  {
    var st := Start(slots);
    bad := RowIsFieldwise(fields, st, row, 0);
    var end := TakeAll(fields, st, row, 0);
    if end.Some? {
      SeenIsRequired(fields, slots, row, end.value);
      forall k {:trigger SeesAll(fields, st, row, 0, end.value, k)} | 0 <= k < |fields|
        ensures FieldMeans(fields, k, slots[k], row) == if Full(fields[k], View(end.value, k)) then Some(end.value.slots[k]) else None
      {
        assert SeesAll(fields, st, row, 0, end.value, k);
      }
      if !FixedIsFull(fields, end.value) {
        bad := end.value.fixedField.value;
        assert SeesAll(fields, st, row, 0, end.value, bad);
      } else if RequiredCome(fields, row) {
        forall k {:trigger Meant(fields, slots, row, end.value.slots, k)} | 0 <= k < |fields| ensures Meant(fields, slots, row, end.value.slots, k) {
          assert SeesAll(fields, st, row, 0, end.value, k);
        }
      }
    }
  }

  // ---------------------------------------------------------------- arrays

  /** The items a piece brings, if it can be taken at all. */
  ghost function PieceItems(f: Field, p: Piece): Option<seq<Value>> {
    match p
    case Lone(x) => if Receivable(f.kind, x) then Some([x]) else None
    case Run(xs) => Some(xs)
    case Sub(row) =>
      if !f.kind.KMessage? then None
      else
        var m := Meaning(f.kind.fields, DefaultSlots(f.kind.fields), row);
        if m.None? then None else Some([Msg(m.value)])
  }

  /** The items a record brings for field `k`. */
  ghost function RecItems(fields: Fields, k: nat, r: Rec): Option<seq<Value>>
    requires k < |fields|
  {
    if r.Known? && r.k == k then PieceItems(fields[k], r.p) else Some([])
  }

  /** The items that the records from `i` on bring for field `k`, in order. */
  ghost function ItemsFrom(fields: Fields, k: nat, row: Row, i: nat): Option<seq<Value>>
    requires k < |fields|
    decreases |row| - i
  {
    if i >= |row| then Some([])
    else
      var first, rest := RecItems(fields, k, row[i]), ItemsFrom(fields, k, row, i + 1);
      if first.None? || rest.None? then None else Some(first.value + rest.value)
  }

  lemma {:induction false} StoredInArray(f: Field, items: seq<Value>, size: nat, xs: seq<Value>, j: nat)
    requires IsArray(f) && j <= |xs| && (f.rule.FixedCount? ==> size + |xs| - j <= |items|)
    ensures StoreAll(f, Many(items), size, xs, j) ==
      if f.rule.FixedCount? then Many(items[..size] + xs[j..] + items[size + |xs| - j..]) else Many(items + xs[j..])
    decreases |xs| - j
  {
    if j == |xs| {
      assert xs[j..] == [] && items + [] == items;
      if f.rule.FixedCount? { assert items[..size] + [] + items[size..] == items; }
    } else if f.rule.FixedCount? {
      var items' := items[size := xs[j]];
      StoredInArray(f, items', size + 1, xs, j + 1);
      assert items'[..size + 1] == items[..size] + [xs[j]] && xs[j..] == [xs[j]] + xs[j + 1..];
      assert items'[size + 1 + |xs| - (j + 1)..] == items[size + |xs| - j..];
    } else {
      StoredInArray(f, items + [xs[j]], size + 1, xs, j + 1);
      assert xs[j..] == [xs[j]] + xs[j + 1..];
    }
  }

  /** An array takes a piece if all its items fit. */
  lemma PieceInArray(f: Field, items: seq<Value>, size: nat, p: Piece)
    requires IsArray(f) && GoodPiece(f, p) && size <= Capacity(f)
    requires if f.rule.FixedCount? then |items| == f.rule.count else |items| == size
    ensures var d, xs := Deposit(f, Many(items), size, p), PieceItems(f, p);
      if xs.None? || size + |xs.value| > Capacity(f) then d.None?
      else d == Some((if f.rule.FixedCount? then Many(items[..size] + xs.value + items[size + |xs.value|..]) else Many(items + xs.value), size + |xs.value|))
  {
    match p
    case Run(xs) =>
      if size + |xs| <= Capacity(f) {
        StoredInArray(f, items, size, xs, 0);
        assert xs[0..] == xs;
      }
    case Lone(x) =>
      if size < Capacity(f) { StoredInArray(f, items, size, [x], 0); }
      assert [x][0..] == [x];
    case Sub(row) =>
      var m := Meaning(f.kind.fields, DefaultSlots(f.kind.fields), row);
      assert DefaultValue(f.kind) == Msg(DefaultSlots(f.kind.fields));
      if m.Some? && size < Capacity(f) {
        StoredInArray(f, items, size, [Msg(m.value)], 0);
        assert [Msg(m.value)][0..] == [Msg(m.value)];
      }
  }

  /** An array with more items at its end, if there is room for them. */
  ghost function Extended(max: nat, items: seq<Value>, more: Option<seq<Value>>): Option<seq<Value>> {
    if more.None? || |items| + |more.value| > max then None else Some(items + more.value)
  }

  lemma RepeatedStep(fields: Fields, k: nat, items: seq<Value>, r: Rec)
    requires GoodRec(fields, r) && k < |fields| && fields[k].rule.Repeated? && |items| <= fields[k].rule.max
    ensures var all := Extended(fields[k].rule.max, items, RecItems(fields, k, r));
      Step(fields, k, Filling(Many(items), false, 0), r) == if all.None? then None else Some(Filling(Many(all.value), false, 0))
  {
    if r.Known? && r.k == k { PieceInArray(fields[k], items, |items|, r.p); }
    assert items + [] == items;
  }

  lemma ExtendedTwice(max: nat, items: seq<Value>, first: Option<seq<Value>>, rest: Option<seq<Value>>)
    requires |items| <= max
    ensures var both := if first.None? || rest.None? then None else Some(first.value + rest.value);
      Extended(max, items, both) ==
      if Extended(max, items, first).None? then None else Extended(max, Extended(max, items, first).value, rest)
  {
    if first.Some? && rest.Some? { assert (items + first.value) + rest.value == items + (first.value + rest.value); }
  }

  lemma {:induction false} RepeatedSteps(fields: Fields, k: nat, items: seq<Value>, row: Row, i: nat)
    requires GoodRow(fields, row) && k < |fields| && fields[k].rule.Repeated? && |items| <= fields[k].rule.max
    ensures var all := Extended(fields[k].rule.max, items, ItemsFrom(fields, k, row, i));
      Steps(fields, k, Filling(Many(items), false, 0), row, i) == if all.None? then None else Some(Filling(Many(all.value), false, 0))
    decreases |row| - i
  {
    if i >= |row| {
      assert items + [] == items;
    } else {
      assert GoodRec(fields, row[i]);
      var max, first := fields[k].rule.max, RecItems(fields, k, row[i]);
      RepeatedStep(fields, k, items, row[i]);
      ExtendedTwice(max, items, first, ItemsFrom(fields, k, row, i + 1));
      var all := Extended(max, items, first);
      if all.Some? { RepeatedSteps(fields, k, all.value, row, i + 1); }
    }
  }

  /** A repeated field holds what it held and then the items of its records in order, whether they
      came alone or in runs, if there is room for all of them; otherwise the row is refused. */
  lemma RepeatedHoldsItems(fields: Fields, k: nat, items: seq<Value>, row: Row)
    requires GoodRow(fields, row) && k < |fields| && fields[k].rule.Repeated? && |items| <= fields[k].rule.max
    ensures var xs := ItemsFrom(fields, k, row, 0);
      FieldMeans(fields, k, Many(items), row) ==
      if xs.None? || |items| + |xs.value| > fields[k].rule.max then None else Some(Many(items + xs.value))
  {
    RepeatedSteps(fields, k, items, row, 0);
  }

  /** No record of another array of fixed count comes from `i` on. */
  ghost predicate Unbroken(fields: Fields, k: nat, row: Row, i: nat) {
    forall m {:trigger row[m]} :: i <= m < |row| && row[m].Known? && row[m].k != k && row[m].k < |fields| ==> !fields[row[m].k].rule.FixedCount?
  }

  /** The entries of an array of fixed count of which `n` have come, after some more. */
  ghost function Overwritten(items: seq<Value>, n: nat, more: Option<seq<Value>>): Option<seq<Value>> {
    if more.None? || n + |more.value| > |items| then None else Some(items[..n] + more.value + items[n + |more.value|..])
  }

  ghost function Refilled(items: seq<Value>, open: bool, n: nat, more: Option<seq<Value>>): Option<Filling> {
    var all := Overwritten(items, n, more);
    if all.None? then None else Some(Filling(Many(all.value), open, n + |more.value|))
  }

  lemma FixedOwn(f: Field, items: seq<Value>, open: bool, n: nat, p: Piece)
    requires GoodPiece(f, p) && f.rule == FixedCount(|items|) && n <= |items|
    ensures Own(f, Filling(Many(items), open, n), p) == Refilled(items, true, n, PieceItems(f, p))
  {
    PieceInArray(f, items, n, p);
    assert SizeSoFar(f, Many(items), n) == n;
  }

  lemma FixedStep(fields: Fields, k: nat, items: seq<Value>, open: bool, n: nat, r: Rec)
    requires GoodRec(fields, r) && k < |fields| && fields[k].rule == FixedCount(|items|) && n <= |items| && (!open ==> n == 0)
    requires r.Known? && r.k != k && r.k < |fields| ==> !fields[r.k].rule.FixedCount?
    ensures Step(fields, k, Filling(Many(items), open, n), r) == Refilled(items, open || (r.Known? && r.k == k), n, RecItems(fields, k, r))
  {
    if r.Known? && r.k == k {
      FixedOwn(fields[k], items, open, n, r.p);
    } else {
      assert items[..n] + [] + items[n..] == items;
    }
  }

  lemma RefilledTwice(items: seq<Value>, opens: bool, open: bool, n: nat, first: Option<seq<Value>>, rest: Option<seq<Value>>)
    requires n <= |items|
    ensures var both := if first.None? || rest.None? then None else Some(first.value + rest.value);
      var y := Refilled(items, opens, n, first);
      && (y.Some? ==> y.value.s.Many? && |y.value.s.items| == |items| && y.value.n <= |items| && y.value.open == opens)
      && Refilled(items, open, n, both) == if y.None? then None else Refilled(y.value.s.items, open, y.value.n, rest)
  {
    if first.Some? && rest.Some? && n + |first.value| <= |items| {
      var items' := items[..n] + first.value + items[n + |first.value|..];
      var m := n + |first.value|;
      assert items'[..m] == items[..n] + first.value;
      if m + |rest.value| <= |items| {
        assert items'[m + |rest.value|..] == items[m + |rest.value|..];
        assert items[..n] + (first.value + rest.value) == items[..n] + first.value + rest.value;
      }
    }
  }

  lemma ComesNext(row: Row, i: nat, k: nat)
    requires i < |row|
    ensures Comes(row, i, k) <==> (row[i].Known? && row[i].k == k) || Comes(row, i + 1, k)
  {
  }

  lemma {:induction false} FixedSteps(fields: Fields, k: nat, items: seq<Value>, open: bool, n: nat, row: Row, i: nat)
    requires GoodRow(fields, row) && k < |fields| && fields[k].rule == FixedCount(|items|) && n <= |items| && (!open ==> n == 0)
    requires Unbroken(fields, k, row, i)
    ensures Steps(fields, k, Filling(Many(items), open, n), row, i) == Refilled(items, open || Comes(row, i, k), n, ItemsFrom(fields, k, row, i))
    decreases |row| - i
  {
    if i >= |row| {
      assert items[..n] + [] + items[n..] == items;
    } else {
      assert GoodRec(fields, row[i]);
      var opens := open || (row[i].Known? && row[i].k == k);
      FixedStep(fields, k, items, open, n, row[i]);
      RefilledTwice(items, opens, open || Comes(row, i, k), n, RecItems(fields, k, row[i]), ItemsFrom(fields, k, row, i + 1));
      ComesNext(row, i, k);
      var y := Refilled(items, opens, n, RecItems(fields, k, row[i]));
      if y.Some? { FixedSteps(fields, k, y.value.s.items, opens, y.value.n, row, i + 1); }
    }
  }

  /** An array of fixed count whose records are not broken off by another one holds exactly their
      items, and there must be as many as it has entries; without records it stays as it is. */
  lemma FixedCountHoldsItems(fields: Fields, k: nat, items: seq<Value>, row: Row)
    requires GoodRow(fields, row) && k < |fields| && fields[k].rule == FixedCount(|items|) && Unbroken(fields, k, row, 0)
    ensures var xs := ItemsFrom(fields, k, row, 0);
      FieldMeans(fields, k, Many(items), row) ==
      if !Comes(row, 0, k) then Some(Many(items))
      else if xs.None? || |xs.value| != |items| then None else Some(Many(xs.value))
  {
    var xs := ItemsFrom(fields, k, row, 0);
    FixedSteps(fields, k, items, false, 0, row, 0);
    if !Comes(row, 0, k) { NoItems(fields, k, row, 0); }
    assert items[..0] + [] + items[0..] == items;
    if xs.Some? && |xs.value| == |items| { assert items[..0] + xs.value + items[|xs.value|..] == xs.value; }
  }

  lemma {:induction false} NoItems(fields: Fields, k: nat, row: Row, i: nat)
    requires k < |fields| && !Comes(row, i, k)
    ensures ItemsFrom(fields, k, row, i) == Some([])
    decreases |row| - i
  {
    if i < |row| {
      ComesNext(row, i, k);
      NoItems(fields, k, row, i + 1);
      var none: seq<Value> := [];
      assert none + none == none;
    }
  }

  lemma {:induction false} StepsOfTail(fields: Fields, k: nat, x: Filling, a: Row, b: Row, j: nat)
    requires k < |fields| && j <= |b|
    ensures Steps(fields, k, x, a + b, |a| + j) == Steps(fields, k, x, b, j)
    decreases |b| - j
  {
    if j < |b| {
      var y := Step(fields, k, x, b[j]);
      if y.Some? { StepsOfTail(fields, k, y.value, a, b, j + 1); }
    }
  }

  lemma {:induction false} StepsConcat(fields: Fields, k: nat, x: Filling, a: Row, b: Row, i: nat)
    requires k < |fields| && i <= |a|
    ensures var y := Steps(fields, k, x, a, i);
      Steps(fields, k, x, a + b, i) == if y.None? then None else Steps(fields, k, y.value, b, 0)
    decreases |a| - i
  {
    if i == |a| {
      StepsOfTail(fields, k, x, a, b, 0);
    } else {
      var y := Step(fields, k, x, a[i]);
      if y.Some? { StepsConcat(fields, k, y.value, a, b, i + 1); }
    }
  }

  /** Where a record of another array of fixed count breaks an array off, it must be full, or not
      begun, and what comes behind starts over. */
  lemma BrokenOffArrayIsFull(fields: Fields, k: nat, s: Slot, a: Row, r: Rec, b: Row)
    requires k < |fields| && fields[k].rule.FixedCount?
    requires r.Known? && r.k < |fields| && r.k != k && fields[r.k].rule.FixedCount?
    ensures var before := FieldMeans(fields, k, s, a);
      FieldMeans(fields, k, s, a + ([r] + b)) == if before.None? then None else FieldMeans(fields, k, before.value, b)
  {
    var x := Filling(s, false, 0);
    StepsConcat(fields, k, x, a, [r] + b, 0);
    var y := Steps(fields, k, x, a, 0);
    if y.Some? {
      var z := Step(fields, k, y.value, r);
      if z.Some? { StepsOfTail(fields, k, z.value, [r], b, 0); }
    }
  }

  // ---------------------------------------------------------------- single values and unions

  /** The slot of a field that is no array after a record of its own: a value replaces what was there,
      a submessage is decoded into what was there, unless that was not selected in its union. */
  ghost function Written(f: Field, s: Slot, p: Piece): Option<Slot>
    requires !s.Many?
  {
    match p
    case Lone(x) => if !Receivable(f.kind, x) then None else Some(if s.Maybe? then Maybe(true, x) else One(x))
    case Run(_) => None
    case Sub(row) =>
      if !f.kind.KMessage? then None
      else
        var start := if f.rule.OneOf? && s.Maybe? && !s.has then DefaultSlots(f.kind.fields) else SlotsOf(s.v);
        var m := Meaning(f.kind.fields, start, row);
        if m.None? then None else Some(if s.Maybe? then Maybe(true, Msg(m.value)) else One(Msg(m.value)))
  }

  /** The slot of a field that is no array after a record of any field. */
  ghost function OneMore(fields: Fields, k: nat, s: Slot, r: Rec): Option<Slot>
    requires k < |fields| && !s.Many?
  {
    if !r.Known? || r.k >= |fields| then Some(s)
    else if r.k == k then Written(fields[k], s, r.p)
    else if SameUnion(fields[r.k], fields[k]) && s.Maybe? then Some(Maybe(false, s.v))
    else Some(s)
  }

  lemma PlainStep(fields: Fields, k: nat, s: Slot, r: Rec)
    requires k < |fields| && !IsArray(fields[k]) && !s.Many? && GoodRec(fields, r)
    ensures var t := OneMore(fields, k, s, r);
      && Step(fields, k, Filling(s, false, 0), r) == (if t.None? then None else Some(Filling(t.value, false, 0)))
      && (t.Some? ==> !t.value.Many?)
  {
    var f := fields[k];
    if f.kind.KMessage? { assert DefaultValue(f.kind) == Msg(DefaultSlots(f.kind.fields)); }
  }

  lemma {:induction false} PlainSteps(fields: Fields, k: nat, s: Slot, row: Row, i: nat)
    requires GoodRow(fields, row) && k < |fields| && !IsArray(fields[k]) && !s.Many?
    ensures var x := Steps(fields, k, Filling(s, false, 0), row, i);
      x.Some? ==> !x.value.s.Many? && x.value == Filling(x.value.s, false, 0)
    decreases |row| - i
  {
    if i < |row| {
      assert GoodRec(fields, row[i]);
      PlainStep(fields, k, s, row[i]);
      var t := OneMore(fields, k, s, row[i]);
      if t.Some? { PlainSteps(fields, k, t.value, row, i + 1); }
    }
  }

  /** A field that is no array is decided by one record after the other. */
  lemma NextRecordDecides(fields: Fields, k: nat, s: Slot, row: Row, r: Rec)
    requires GoodRow(fields, row) && GoodRec(fields, r) && k < |fields| && !IsArray(fields[k]) && !s.Many?
    ensures FieldMeans(fields, k, s, []) == Some(s)
    ensures var before := FieldMeans(fields, k, s, row);
      && (before.Some? ==> !before.value.Many?)
      && FieldMeans(fields, k, s, row + [r]) == if before.None? then None else OneMore(fields, k, before.value, r)
  {
    var x := Filling(s, false, 0);
    PlainSteps(fields, k, s, row, 0);
    StepsConcat(fields, k, x, row, [r], 0);
    var y := Steps(fields, k, x, row, 0);
    if y.Some? {
      PlainStep(fields, k, y.value.s, r);
      var z := Step(fields, k, y.value, r);
      assert Steps(fields, k, y.value, [r], 0) == if z.None? then None else Steps(fields, k, z.value, [r], 1);
    }
  }

  /** No record from `i` on is of field `k` or of its union. */
  ghost predicate Untouched(fields: Fields, k: nat, row: Row, i: nat)
    requires k < |fields|
  {
    forall m {:trigger row[m]} :: i <= m < |row| && row[m].Known? && row[m].k < |fields| ==> row[m].k != k && !SameUnion(fields[row[m].k], fields[k])
  }

  lemma {:induction false} NothingElseDecides(fields: Fields, k: nat, s: Slot, row: Row, n: nat)
    requires GoodRow(fields, row) && k < |fields| && !IsArray(fields[k]) && !s.Many? && n <= |row| && Untouched(fields, k, row, n)
    ensures GoodRow(fields, row[..n]) && FieldMeans(fields, k, s, row) == FieldMeans(fields, k, s, row[..n])
    decreases |row|
  {
    if n == |row| {
      assert row[..n] == row;
    } else {
      var m := |row| - 1;
      var shorter := row[..m];
      assert GoodRec(fields, row[m]);
      forall i | 0 <= i < m ensures GoodRec(fields, shorter[i]) { assert shorter[i] == row[i]; }
      assert row == shorter + [row[m]];
      NextRecordDecides(fields, k, s, shorter, row[m]);
      NothingElseDecides(fields, k, s, shorter, n);
      assert shorter[..n] == row[..n];
    }
  }

  /** The last record of a field that is no array counts, and selects it in its union: a later one of
      another member deselects it. */
  lemma LastRecordCounts(fields: Fields, k: nat, s: Slot, row: Row, i: nat)
    requires GoodRow(fields, row) && k < |fields| && !IsArray(fields[k]) && !s.Many? && FieldMeans(fields, k, s, row).Some?
    requires i < |row| && row[i].Known? && Untouched(fields, k, row, i + 1)
    ensures var t := FieldMeans(fields, k, s, row).value;
      && (row[i].k == k && row[i].p.Lone? ==> t == if s.Maybe? then Maybe(true, row[i].p.x) else One(row[i].p.x))
      && (row[i].k == k ==> if s.Maybe? then t.Maybe? && t.has else t.One?)
      && (row[i].k != k && row[i].k < |fields| && SameUnion(fields[row[i].k], fields[k]) && s.Maybe? ==> t.Maybe? && !t.has)
  {
    NothingElseDecides(fields, k, s, row, i + 1);
    assert row[..i + 1] == row[..i] + [row[i]];
    forall m | 0 <= m < i ensures GoodRec(fields, row[..i][m]) { assert row[..i][m] == row[m]; }
    NextRecordDecides(fields, k, s, row[..i], row[i]);
    ShapeStays(fields, k, s, row[..i]);
  }

  lemma {:induction false} ShapeStays(fields: Fields, k: nat, s: Slot, row: Row)
    requires GoodRow(fields, row) && k < |fields| && !IsArray(fields[k]) && !s.Many?
    ensures var t := FieldMeans(fields, k, s, row); t.Some? ==> (t.value.Maybe? <==> s.Maybe?) && !t.value.Many?
    decreases |row|
  {
    if row != [] {
      var m := |row| - 1;
      forall i | 0 <= i < m ensures GoodRec(fields, row[..m][i]) { assert row[..m][i] == row[i]; }
      assert GoodRec(fields, row[m]) && row == row[..m] + [row[m]];
      NextRecordDecides(fields, k, s, row[..m], row[m]);
      ShapeStays(fields, k, s, row[..m]);
    }
  }

  // ---------------------------------------------------------------- decoding, field by field

  /** Decoding the bytes of a row of well-formed records, whatever their order: the decoder accepts
      them exactly if the required fields come and every field can take its records, and then each
      field holds what its own records mean.  A zero in the place of a tag ends the message. */
  lemma DecodedFieldByField(fields: Fields, slots: seq<Slot>, row: Row, end: Bytes) returns (bad: nat)
    requires GoodRow(fields, row) && |slots| == |fields| && (end == [] || end[0] == 0)
    ensures var r := MessageAt(fields, slots, RowBytes(fields, row, 0) + end);
      if r.None? then !RequiredCome(fields, row) || (bad < |fields| && FieldMeans(fields, bad, slots[bad], row).None?)
      else
        && RequiredCome(fields, row) && r.value.1 == (if end == [] then [] else end[1..])
        && AllMeant(fields, slots, row, r.value.0)
  {
    MeaningArrives(fields, slots, row, end);
    bad := RowMeansFieldByField(fields, slots, row);
  }
}
