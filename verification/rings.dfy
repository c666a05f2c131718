/** Circular doubly linked lists (`double_list.h`) and the copying of a column list. */
module Rings {
  import opened Basics

  class Node<T> {
    var next: Node<T>
    var prev: Node<T>
    var value: T

    constructor (value: T)
      ensures next == this && prev == this && this.value == value
    {
      this.value := value;
      next, prev := this, this;
    }
  }

  /** The nodes of `s` form one ring, in this order from its first node on. */
  ghost predicate Ring<T>(s: seq<Node<T>>)
    reads s
  {
    && s != []
    && (forall i, j :: 0 <= i < j < |s| ==> s[i] != s[j])
    && (forall i :: 0 <= i < |s| ==> s[i].next == s[if i + 1 < |s| then i + 1 else 0])
    && (forall i :: 0 <= i < |s| ==> s[i].prev == s[if i > 0 then i - 1 else |s| - 1])
  }

  ghost predicate Disjoint<T>(a: seq<Node<T>>, b: seq<Node<T>>) {
    forall i, j :: 0 <= i < |a| && 0 <= j < |b| ==> a[i] != b[j]
  }

  /** `dqinit`. */
  method DqInit<T>(element: Node<T>)
    modifies element`next, element`prev
    ensures Ring([element]) && element.next == element && element.prev == element
  {
    element.next := element;
    element.prev := element;
  }

  /** The links inside one part of a ring. */
  ghost predicate Chain<T>(s: seq<Node<T>>)
    reads s
  {
    && (forall i, j :: 0 <= i < j < |s| ==> s[i] != s[j])
    && (forall i :: 0 <= i < |s| - 1 ==> s[i].next == s[i + 1])
    && (forall i :: 0 < i < |s| ==> s[i].prev == s[i - 1])
  }

  lemma PartsOfRing<T>(a: seq<Node<T>>, b: seq<Node<T>>)
    requires a != [] && b != [] && Ring(a + b)
    ensures Chain(a) && Chain(b) && Disjoint(a, b)
    ensures a[0].prev == b[|b| - 1] && b[0].prev == a[|a| - 1]
    ensures a[|a| - 1].next == b[0] && b[|b| - 1].next == a[0]
  {
    var s := a + b;
    assert forall i :: 0 <= i < |a| ==> a[i] == s[i];
    assert forall j :: 0 <= j < |b| ==> b[j] == s[|a| + j];
    assert s[|s| - 1] == b[|b| - 1] && s[|a| - 1] == a[|a| - 1];
  }

  /** `dqappend`, by what it writes: four pointers, so no ring without these nodes changes. */
  method DqAppend<T>(self: Node<T>, newElem: Node<T>)
    requires self != newElem && self.prev != newElem.prev
    modifies self.prev`next, self`prev, newElem.prev`next, newElem`prev
    ensures self.prev == old(newElem.prev) && newElem.prev == old(self.prev)
    ensures old(self.prev).next == newElem && old(newElem.prev).next == self
  {
    var tmpPtr := self.prev;
    self.prev.next := newElem;
    self.prev := newElem.prev;
    newElem.prev.next := self;
    newElem.prev := tmpPtr;
  }

  /** `dqappend` on two rings joins them, the second after the first. */
  method JoinRings<T>(self: Node<T>, newElem: Node<T>, ghost a: seq<Node<T>>, ghost b: seq<Node<T>>)
    requires Ring(a) && a[0] == self && Ring(b) && b[0] == newElem && Disjoint(a, b)
    modifies self.prev`next, self`prev, newElem.prev`next, newElem`prev
    ensures Ring(a + b)
    ensures self.prev == old(newElem.prev) && newElem.prev == old(self.prev)
  {
    ghost var s := a + b;
    assert self.prev == a[|a| - 1] && newElem.prev == b[|b| - 1];
    assert a[0] != b[0] && a[|a| - 1] != b[|b| - 1];
    DqAppend(self, newElem);
    assert forall i :: 0 <= i < |s| ==> s[i] == if i < |a| then a[i] else b[i - |a|];
  }

  /** `dqappend` inside one ring splits it in two. */
  method SplitRing<T>(self: Node<T>, newElem: Node<T>, ghost a: seq<Node<T>>, ghost b: seq<Node<T>>)
    requires a != [] && a[0] == self && b != [] && b[0] == newElem && Ring(a + b)
    modifies self.prev`next, self`prev, newElem.prev`next, newElem`prev
    ensures Ring(a) && Ring(b) && Disjoint(a, b)
  {
    PartsOfRing(a, b);
    assert a[0] != b[0] && a[|a| - 1] != b[|b| - 1];
    DqAppend(self, newElem);
  }

  /** A second `dqappend` of the same two nodes undoes the first: all rings are as they were. */
  method AppendUndone<T>(self: Node<T>, newElem: Node<T>)
    requires self != newElem && self.prev != newElem.prev
    requires self.prev.next == self && newElem.prev.next == newElem
    modifies self.prev`next, self`prev, newElem.prev`next, newElem`prev
    ensures forall n: Node<T> :: old(allocated(n)) ==> n.next == old(n.next) && n.prev == old(n.prev)
  {
    DqAppend(self, newElem);
    DqAppend(self, newElem);
  }

  /** The positions next to j in a ring of n nodes when k is passed over. */
  function After(n: nat, k: nat, j: nat): nat
    requires j < n && k < n
  {
    var a := if j + 1 < n then j + 1 else 0;
    if a != k then a else if k + 1 < n then k + 1 else 0
  }

  function Before(n: nat, k: nat, j: nat): nat
    requires j < n && k < n
  {
    var b := if j > 0 then j - 1 else n - 1;
    if b != k then b else if k > 0 then k - 1 else n - 1
  }

  /** Nodes whose links pass over the k-th are a ring without it. */
  lemma RingWithout<T>(s: seq<Node<T>>, k: nat)
    requires |s| > 1 && k < |s| && forall i, j :: 0 <= i < j < |s| ==> s[i] != s[j]
    requires forall j :: 0 <= j < |s| && j != k ==>
               s[j].next == s[After(|s|, k, j)] && s[j].prev == s[Before(|s|, k, j)]
    ensures Ring(s[..k] + s[k + 1..])
  {
    var t := s[..k] + s[k + 1..];
    assert forall i :: 0 <= i < |t| ==> t[i] == s[if i < k then i else i + 1];
    forall i | 0 <= i < |t|
      ensures t[i].next == t[if i + 1 < |t| then i + 1 else 0]
      ensures t[i].prev == t[if i > 0 then i - 1 else |t| - 1]
    {
      var j := if i < k then i else i + 1;
      assert s[j].next == s[After(|s|, k, j)] && s[j].prev == s[Before(|s|, k, j)];
    }
  }

  lemma Removed<T>(s: seq<Node<T>>, k: nat)
    requires k < |s| && forall i, j :: 0 <= i < j < |s| ==> s[i] != s[j]
    ensures s[k] !in s[..k] + s[k + 1..]
  {
  }

  /** `dqdel`, by what it writes. */
  method Unlink<T>(self: Node<T>)
    modifies self.prev`next, self.next`prev, self`next, self`prev
    ensures Ring([self]) && self.next == self && self.prev == self
    ensures old(self.prev) != self ==> old(self.prev).next == old(self.next)
    ensures old(self.next) != self ==> old(self.next).prev == old(self.prev)
  {
    self.prev.next := self.next;
    self.next.prev := self.prev;
    DqInit(self);
  }

  /** `dqdel`: takes the k-th node out; the others stay a ring in the same order and it becomes one of its own. */
  method DqDel<T>(self: Node<T>, ghost s: seq<Node<T>>, ghost k: nat)
    requires Ring(s) && k < |s| && s[k] == self
    modifies self.prev`next, self.next`prev, self`next, self`prev
    ensures Ring([self])
    ensures |s| > 1 ==> Ring(s[..k] + s[k + 1..])
    ensures self !in s[..k] + s[k + 1..]
  {
    ghost var n := |s|;
    ghost var before, after := if k > 0 then k - 1 else n - 1, if k + 1 < n then k + 1 else 0;
    assert self.prev == s[before] && self.next == s[after];
    Removed(s, k);
    Unlink(self);
    if n > 1 {
      forall j | 0 <= j < n && j != k
        ensures s[j].next == s[After(n, k, j)] && s[j].prev == s[Before(n, k, j)]
      {
        assert s[j].next == if j == before then s[after] else old(s[j].next);
        assert s[j].prev == if j == after then s[before] else old(s[j].prev);
      }
      RingWithout(s, k);
    }
  }

  /** Joining two rings and then taking a node out again leaves every other ring as it was. */
  method OthersStay<T>(self: Node<T>, newElem: Node<T>, ghost a: seq<Node<T>>, ghost b: seq<Node<T>>,
                       ghost other: seq<Node<T>>)
    requires Ring(a) && a[0] == self && Ring(b) && b[0] == newElem && Disjoint(a, b)
    requires Ring(other) && Disjoint(other, a) && Disjoint(other, b)
    modifies a, b
    ensures Ring(other) && (forall n :: n in other ==> n.next == old(n.next) && n.prev == old(n.prev))
    ensures Ring(a + b[1..]) && Ring([newElem])
  {
    ghost var s := a + b;
    assert forall n :: n in other ==> n !in a && n !in b;
    assert self.prev == a[|a| - 1] && newElem.prev == b[|b| - 1];
    JoinRings(self, newElem, a, b);
    assert s[|a|] == newElem && newElem.prev == s[|a| - 1] == a[|a| - 1];
    assert newElem.next == if |b| > 1 then b[1] else a[0];
    DqDel(newElem, s, |a|);
    assert s[..|a|] + s[|a| + 1..] == a + b[1..];
  }

  // ---------------------------------------------------------------------------
  // Copying a column list
  // ---------------------------------------------------------------------------

  /** A node of a column list; `value` stands for the column alias it points to. */
  class ColumnList {
    var next: ColumnList
    var prev: ColumnList
    var value: nat

    constructor (value: nat)
      ensures Alone() && this.value == value
    {
      this.value := value;
      next, prev := this, this;
    }

    /** A list of one node. */
    predicate Alone()
      reads this
    {
      next == this && prev == this
    }
  }

  /** The fields of a column list alias other than its links. A number stands for a pointer that a copy shares, and 0
      for a null pointer. */
  datatype ColumnListAlias = ColumnListAlias(
    columnList: Option<ColumnList>, alias: nat, keywords: nat, valueType: nat, userSpecifiedAlias: bool,
    tblAndColId: nat, duplicateOfColumn: nat, outerQueryColumnAlias: nat, binDefnOffset: nat)

  /** A copy for a table alias keeps the alias and the type, takes the given keywords, and has a column list of its own;
      the rest is the zeroed memory of a new node. */
  function NewContents(columnList: ColumnList, original: ColumnListAlias, keywords: nat): ColumnListAlias {
    ColumnListAlias(Some(columnList), original.alias, keywords, original.valueType, false, 0, 0, 0, 0)
  }

  /** A list of one node, with the column alias found for the original; `columnAliasOf` stands for
      `get_column_alias_for_column_list_alias`. */
  predicate ListFor(column: ColumnList, original: ColumnListAlias, tableAlias: nat,
                    columnAliasOf: (ColumnListAlias, nat) -> nat)
    reads column
  {
    column.Alone() && column.value == columnAliasOf(original, tableAlias)
  }

  /** Different lists, each for the original at its place. */
  ghost predicate ListsFor(columns: seq<ColumnList>, originals: seq<ColumnListAlias>, tableAlias: nat,
                           columnAliasOf: (ColumnListAlias, nat) -> nat)
    reads columns`next, columns`prev, columns`value
  {
    && |columns| == |originals|
    && (forall i :: 0 <= i < |columns| ==>
          && columns[i].next == columns[i] && columns[i].prev == columns[i]
          && columns[i].value == columnAliasOf(originals[i], tableAlias))
    && (forall i, j :: 0 <= i < j < |columns| ==> columns[i] != columns[j])
  }

  lemma OneMoreList(columns: seq<ColumnList>, originals: seq<ColumnListAlias>, tableAlias: nat,
                    columnAliasOf: (ColumnListAlias, nat) -> nat, column: ColumnList, original: ColumnListAlias)
    requires ListsFor(columns, originals, tableAlias, columnAliasOf)
    requires ListFor(column, original, tableAlias, columnAliasOf)
    requires column !in columns
    ensures ListsFor(columns + [column], originals + [original], tableAlias, columnAliasOf)
  {
  }

  /** Links a new node at the end of the copy. */
  method AppendCopy<T>(claCopy: Node<T>, claNew: Node<T>, ghost r: seq<Node<T>>)
    requires Ring(r) && r[0] == claCopy && Ring([claNew]) && claNew !in r
    modifies r`next, r`prev, claNew`next, claNew`prev
    ensures Ring(r + [claNew])
  {
    assert claCopy.prev == r[|r| - 1] && [claNew][0].prev == claNew;
    JoinRings(claCopy, claNew, r, [claNew]);
  }

  /** What the i-th copy has of the original: everything, or with a table alias what NewContents says, with the i-th of
      the new lists. */
  predicate CopyOf(contents: ColumnListAlias, original: ColumnListAlias, tableAlias: Option<nat>, keywords: nat,
                   columns: seq<ColumnList>, i: nat)
  {
    if tableAlias.None? then contents == original
    else i < |columns| && contents == NewContents(columns[i], original, keywords)
  }

  /** One pass of the copying loop, before the new node is linked. */
  method CopyNode(original: ColumnListAlias, tableAlias: Option<nat>, keywords: nat,
                  columnAliasOf: (ColumnListAlias, nat) -> nat)
    returns (claNew: Node<ColumnListAlias>, ghost column: seq<ColumnList>)
    ensures fresh(claNew) && fresh(column) && Ring([claNew])
    ensures CopyOf(claNew.value, original, tableAlias, keywords, column, 0)
    ensures |column| == if tableAlias.Some? then 1 else 0
    ensures tableAlias.Some? ==> ListFor(column[0], original, tableAlias.value, columnAliasOf)
  {
    var contents := original;
    column := [];
    if tableAlias.Some? {
      var cur := new ColumnList(columnAliasOf(original, tableAlias.value));
      column := [cur];
      contents := NewContents(cur, original, keywords);
    }
    claNew := new Node(contents);
    DqInit(claNew);
  }

  /** The ring r copies contents; with a table alias each of its nodes has a list of its own among `columns`. */
  ghost predicate Copied(r: seq<Node<ColumnListAlias>>, columns: seq<ColumnList>, originals: seq<ColumnListAlias>,
                         tableAlias: Option<nat>, keywords: nat, columnAliasOf: (ColumnListAlias, nat) -> nat)
    reads r, columns`next, columns`prev, columns`value
  {
    && Ring(r) && |r| == |originals|
    && (tableAlias.Some? ==> ListsFor(columns, originals, tableAlias.value, columnAliasOf))
    && forall i :: 0 <= i < |r| ==> CopyOf(r[i].value, originals[i], tableAlias, keywords, columns, i)
  }

  /** The fields of the copies: the alias and the type are the original's, the keywords and the list are new. */
  ghost predicate FieldsCopied(r: seq<Node<ColumnListAlias>>, columns: seq<ColumnList>, originals: seq<ColumnListAlias>,
                               keywords: nat)
    reads r
  {
    && |r| == |columns| == |originals|
    && forall i :: 0 <= i < |r| ==>
         var copy, original := r[i].value, originals[i];
         && copy.alias == original.alias && copy.valueType == original.valueType
         && copy.keywords == keywords && copy.columnList == Some(columns[i])
         && !copy.userSpecifiedAlias && copy.tblAndColId == copy.duplicateOfColumn == 0
         && copy.outerQueryColumnAlias == copy.binDefnOffset == 0
  }

  lemma FieldsOfCopies(r: seq<Node<ColumnListAlias>>, columns: seq<ColumnList>, originals: seq<ColumnListAlias>,
                       tableAlias: Option<nat>, keywords: nat, columnAliasOf: (ColumnListAlias, nat) -> nat)
    requires Copied(r, columns, originals, tableAlias, keywords, columnAliasOf)
    ensures tableAlias.None? ==> forall i :: 0 <= i < |r| ==> r[i].value == originals[i]
    ensures tableAlias.Some? ==> FieldsCopied(r, columns, originals, keywords)
    ensures tableAlias.Some? ==>
              forall i :: 0 <= i < |columns| ==> columns[i].value == columnAliasOf(originals[i], tableAlias.value)
  {
  }

  /** The first pass of the copying loop. */
  method CopyFirst(original: ColumnListAlias, tableAlias: Option<nat>, keywords: nat,
                   columnAliasOf: (ColumnListAlias, nat) -> nat)
    returns (claCopy: Node<ColumnListAlias>, ghost column: seq<ColumnList>)
    ensures fresh(claCopy) && fresh(column)
    ensures Copied([claCopy], column, [original], tableAlias, keywords, columnAliasOf)
  {
    claCopy, column := CopyNode(original, tableAlias, keywords, columnAliasOf);
  }

  /** A later pass of the copying loop. */
  method CopyOneMore(claCopy: Node<ColumnListAlias>, original: ColumnListAlias, tableAlias: Option<nat>, keywords: nat,
                     columnAliasOf: (ColumnListAlias, nat) -> nat, ghost r: seq<Node<ColumnListAlias>>,
                     ghost columns: seq<ColumnList>, ghost done: seq<ColumnListAlias>)
    returns (claNew: Node<ColumnListAlias>, ghost column: seq<ColumnList>)
    requires Copied(r, columns, done, tableAlias, keywords, columnAliasOf) && r[0] == claCopy
    modifies r`next, r`prev
    ensures fresh(claNew) && fresh(column)
    ensures Copied(r + [claNew], columns + column, done + [original], tableAlias, keywords, columnAliasOf)
  {
    claNew, column := CopyNode(original, tableAlias, keywords, columnAliasOf);
    AppendCopy(claCopy, claNew, r);
    if tableAlias.Some? {
      assert column == [column[0]];
      OneMoreList(columns, done, tableAlias.value, columnAliasOf, column[0], original);
    }
  }

  /** The copying loop. The source ring is only read. */
  method CopyColumnListAliasList(cla: Node<ColumnListAlias>, tableAlias: Option<nat>, keywords: nat,
                                 columnAliasOf: (ColumnListAlias, nat) -> nat, ghost s: seq<Node<ColumnListAlias>>)
    returns (claCopy: Node<ColumnListAlias>, ghost r: seq<Node<ColumnListAlias>>, ghost columns: seq<ColumnList>,
             ghost originals: seq<ColumnListAlias>)
    requires Ring(s) && s[0] == cla
    ensures fresh(r) && fresh(columns) && |r| == |originals| == |s| && r[0] == claCopy
    ensures forall i :: 0 <= i < |s| ==> originals[i] == s[i].value
    ensures Copied(r, columns, originals, tableAlias, keywords, columnAliasOf)
    ensures tableAlias.None? ==> forall i :: 0 <= i < |r| ==> r[i].value == originals[i]
    ensures tableAlias.Some? ==> FieldsCopied(r, columns, originals, keywords)
  {
    hide Copied;
    originals := seq(|s|, i requires 0 <= i < |s| reads s => s[i].value);
    ghost var column;
    claCopy, columns := CopyFirst(cla.value, tableAlias, keywords, columnAliasOf);
    r := [claCopy];
    assert originals[..1] == [cla.value];
    var claCur := cla.next;
    while claCur != cla
      invariant 1 <= |r| <= |s| && r[0] == claCopy && fresh(r) && fresh(columns)
      invariant claCur == if |r| < |s| then s[|r|] else cla
      invariant Copied(r, columns, originals[..|r|], tableAlias, keywords, columnAliasOf)
      decreases |s| - |r|
    {
      ghost var k := |r|;
      var claNew;
      claNew, column :=
        CopyOneMore(claCopy, claCur.value, tableAlias, keywords, columnAliasOf, r, columns, originals[..k]);
      r, columns := r + [claNew], columns + column;
      assert originals[..k + 1] == originals[..k] + [originals[k]];
      claCur := claCur.next;
    }
    assert originals[..|s|] == originals;
    FieldsOfCopies(r, columns, originals, tableAlias, keywords, columnAliasOf);
  }
}
