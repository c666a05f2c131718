/** Automatically generated constraint names: joined column lists, truncation and numeric suffixes. */
module ConstraintName {
  import opened Basics
  import opened WsBytes
  import opened Items
  import opened Sizes

  const OCTO_MAX_IDENT := 63
  const UNDERSCORE: byte := 95
  const CHECK: seq<byte> := [99, 104, 101, 99, 107]
  const PKEY: seq<byte> := [112, 107, 101, 121]
  const KEY: seq<byte> := [107, 101, 121]

  /** The constraints that get a name; a UNIQUE constraint carries its columns, in list order. */
  datatype Constraint = OptionalCheckConstraint | PrimaryKey | UniqueConstraint(columns: seq<seq<byte>>)

  predicate IsText(s: seq<byte>) {
    0 !in s
  }

  function Prefix(s: seq<byte>, length: nat): (p: seq<byte>)
    ensures p <= s && |p| <= length && (|p| == length || p == s)
  {
    if |s| <= length then s else s[..length]
  }

  /** What the conversion `%.*s` prints: a negative precision counts as none. */
  function Limited(s: seq<byte>, precision: int): seq<byte> {
    if precision < 0 then s else Prefix(s, precision)
  }

  /** The C string in memory is s when s has no zero byte and is followed by one. */
  lemma CStringIs(memory: seq<byte>, s: seq<byte>)
    requires IsText(s) && |s| < |memory| && memory[..|s|] == s && memory[|s|] == 0
    ensures 0 in memory && CString(memory) == s
  {
    assert 0 in memory;
    assert forall i :: 0 <= i < |s| ==> memory[i] == s[i] && s[i] != 0;
    assert forall i :: 0 <= i < |CString(memory)| ==> memory[i] == CString(memory)[i] != 0;
  }

  /** `snprintf` at an offset: prints what fits, closes it with a zero byte, and returns the length of all of it. */
  method SnPrintF(buf: array<byte>, at: nat, size: nat, text: seq<byte>) returns (len: nat)
    requires at + size == buf.Length && size > 0
    modifies buf
    ensures len == |text|
    ensures var p := Prefix(text, size - 1);
            buf[..at + |p|] == old(buf[..at]) + p && buf[at + |p|] == 0
  {
    var p := Prefix(text, size - 1);
    for i := 0 to |p|
      invariant buf[..at] == old(buf[..at]) && buf[at..at + i] == p[..i]
    {
      buf[at + i] := p[i];
    }
    buf[at + |p|] := 0;
    return |text|;
  }

  // ---------------------------------------------------------------------------
  // The joined column list
  // ---------------------------------------------------------------------------

  /** The column names with underscores between them. */
  function Joined(columns: seq<seq<byte>>): seq<byte>
    requires columns != []
  {
    var last := |columns| - 1;
    if last == 0 then columns[0] else Joined(columns[..last]) + [UNDERSCORE] + columns[last]
  }

  lemma {:induction false} JoinedIsText(columns: seq<seq<byte>>)
    requires columns != [] && forall c <- columns :: IsText(c)
    ensures IsText(Joined(columns))
  {
    var last := |columns| - 1;
    assert IsText(columns[last]);
    if last > 0 {
      JoinedIsText(columns[..last]);
    }
  }

  lemma {:induction false} JoinedGrows(columns: seq<seq<byte>>, i: nat)
    requires 0 < i <= |columns|
    ensures Joined(columns[..i]) <= Joined(columns)
    decreases |columns|
  {
    if i < |columns| {
      var front := columns[..|columns| - 1];
      JoinedGrows(front, i);
      assert front[..i] == columns[..i];
    } else {
      assert columns[..i] == columns;
    }
  }

  /** What a column adds to the list when `cur` columns are already in it. */
  function Piece(columns: seq<seq<byte>>, cur: nat): seq<byte>
    requires cur < |columns|
  {
    if cur == 0 then columns[0] else [UNDERSCORE] + columns[cur]
  }

  function SoFar(columns: seq<seq<byte>>, cur: nat): seq<byte>
    requires cur <= |columns|
  {
    if cur == 0 then [] else Joined(columns[..cur])
  }

  lemma OneMoreColumn(columns: seq<seq<byte>>, cur: nat)
    requires cur < |columns|
    ensures SoFar(columns, cur) + Piece(columns, cur) == SoFar(columns, cur + 1)
  {
    var next := columns[..cur + 1];
    assert next[..cur] == columns[..cur] && next[cur] == columns[cur];
    if cur > 0 {
      assert Joined(next) == Joined(columns[..cur]) + [UNDERSCORE] + columns[cur];
    }
  }

  lemma FrontIsText(columns: seq<seq<byte>>, n: nat)
    requires 0 < n <= |columns| && forall c <- columns :: IsText(c)
    ensures IsText(Joined(columns[..n]))
  {
    hide IsText;
    assert forall c :: c in columns[..n] ==> c in columns;
    JoinedIsText(columns[..n]);
  }

  lemma JoinedStep(columns: seq<seq<byte>>, cur: nat)
    requires cur < |columns| && forall c <- columns :: IsText(c)
    ensures SoFar(columns, cur) + Piece(columns, cur) == SoFar(columns, cur + 1)
    ensures SoFar(columns, cur + 1) <= Joined(columns) && IsText(SoFar(columns, cur + 1))
    ensures cur + 1 == |columns| ==> SoFar(columns, cur + 1) == Joined(columns)
  {
    hide Joined, IsText, Piece, SoFar;
    OneMoreColumn(columns, cur);
    SoFarIsJoined(columns, cur + 1);
    JoinedGrows(columns, cur + 1);
    FrontIsText(columns, cur + 1);
    if cur + 1 == |columns| {
      assert columns[..|columns|] == columns;
    }
  }

  lemma SoFarIsJoined(columns: seq<seq<byte>>, n: nat)
    requires 0 < n <= |columns|
    ensures SoFar(columns, n) == Joined(columns[..n])
  {
  }

  lemma PrefixOfSum(s: seq<byte>, t: seq<byte>, whole: seq<byte>, length: nat)
    requires |s| <= length <= |s + t| && s + t <= whole
    ensures s + Prefix(t, length - |s|) == Prefix(s + t, length) == Prefix(whole, length)
  {
  }

  lemma PrefixOfText(s: seq<byte>, length: nat)
    requires IsText(s)
    ensures IsText(Prefix(s, length))
  {
  }

  /** The first characters of the underscore join, as many as an identifier may have. */
  method JoinColumns(columns: seq<seq<byte>>) returns (colListBuf: array<byte>)
    requires columns != [] && forall c <- columns :: IsText(c)
    ensures fresh(colListBuf) && 0 in colListBuf[..]
    ensures CString(colListBuf[..]) == Prefix(Joined(columns), 63)
  {
    hide Joined, SoFar, IsText, CString;
    colListBuf := new byte[OCTO_MAX_IDENT + 1];
    var buf: nat, bufLen: nat := 0, OCTO_MAX_IDENT + 1;
    var cur := 0;
    assert SoFar(columns, 0) == [] by { NothingSoFar(columns); }
    while true
      invariant 0 <= cur < |columns| && buf + bufLen == OCTO_MAX_IDENT + 1 && bufLen > 0
      invariant colListBuf[..buf] == SoFar(columns, cur)
      decreases |columns| - cur
    {
      JoinedStep(columns, cur);
      var len: nat;
      if cur == 0 {
        len := SnPrintF(colListBuf, buf, bufLen, columns[cur]);
      } else {
        len := SnPrintF(colListBuf, buf, bufLen, [UNDERSCORE] + columns[cur]);
      }
      if len >= bufLen {
        ghost var filled := colListBuf[..OCTO_MAX_IDENT];
        colListBuf[buf + bufLen - 1] := 0;
        PrefixOfSum(SoFar(columns, cur), Piece(columns, cur), Joined(columns), OCTO_MAX_IDENT);
        PrefixOfText(SoFar(columns, cur + 1), OCTO_MAX_IDENT);
        assert colListBuf[..][..OCTO_MAX_IDENT] == filled;
        CStringIs(colListBuf[..], filled);
        break;
      }
      buf := buf + len;
      bufLen := bufLen - len;
      cur := cur + 1;
      if cur == |columns| {
        CStringIs(colListBuf[..], SoFar(columns, cur));
        break;
      }
    }
  }

  lemma NothingSoFar(columns: seq<seq<byte>>)
    ensures SoFar(columns, 0) == []
  {
  }

  // ---------------------------------------------------------------------------
  // What a generated name is
  // ---------------------------------------------------------------------------

  /** The end of a name: the literal for the kind of constraint, and the number unless it is 0. */
  function Tail(suffix: seq<byte>, numericSuffix: nat): seq<byte> {
    suffix + if numericSuffix == 0 then [] else Numeral(numericSuffix, 10)
  }

  function Assembled(table: seq<byte>, column: Option<seq<byte>>, tail: seq<byte>): seq<byte> {
    table + (if column.Some? then [UNDERSCORE] + column.value else []) + [UNDERSCORE] + tail
  }

  /** What is left of a buffer for the table and column names beside the underscores, the tail and the zero byte. */
  function Available(column: Option<seq<byte>>, tail: seq<byte>, size: nat): int {
    size - |tail| - 2 - if column.Some? then 1 else 0
  }

  /** The buffer holds the tail, the underscores and the zero byte. */
  predicate HasRoom(column: Option<seq<byte>>, tail: seq<byte>, size: nat) {
    Available(column, tail, size) >= 0
  }

  /** Two names share `avail` characters: each is whole or gets at least its half, the table the larger half. */
  predicate FairShare(table: seq<byte>, column: seq<byte>, avail: nat, t: nat, c: nat) {
    && t <= |table| && c <= |column| && t + c == avail
    && (t == |table| || t >= avail - avail / 2)
    && (c == |column| || c >= avail / 2)
  }

  /** The fair share is one pair of lengths. */
  lemma FairShareIsUnique(table: seq<byte>, column: seq<byte>, avail: nat, t: nat, c: nat, t': nat, c': nat)
    requires |table| + |column| > avail
    requires FairShare(table, column, avail, t, c) && FairShare(table, column, avail, t', c')
    ensures t == t' && c == c'
  {
  }

  /** A shortened name that keeps its tail: prefixes of the names, in fair shares. */
  ghost predicate Shortened(table: seq<byte>, column: Option<seq<byte>>, tail: seq<byte>, size: nat, name: seq<byte>) {
    var avail := Available(column, tail, size);
    if avail < 0 then false
    else if column.None? then avail <= |table| && name == Assembled(table[..avail], None, tail)
    else exists t: nat, c: nat :: FairShare(table, column.value, avail, t, c)
           && name == Assembled(table[..t], Some(column.value[..c]), tail)
  }

  /** What is printed, and cut off at the end, when there is no room for the tail. The column name is lost on its own
      just when one byte is missing. */
  function Overlong(table: seq<byte>, column: Option<seq<byte>>, tail: seq<byte>, size: nat): seq<byte> {
    Assembled(table, if column.Some? && Available(column, tail, size) == -1 then Some([]) else column, tail)
  }

  /** The name generated in a buffer of `size` bytes. Without room even for the tail it is cut off at the end. */
  ghost predicate Generated(table: seq<byte>, column: Option<seq<byte>>, tail: seq<byte>, size: nat, name: seq<byte>) {
    var full := Assembled(table, column, tail);
    if |full| < size then name == full
    else if HasRoom(column, tail, size) then Shortened(table, column, tail, size, name)
    else size > 0 && name == Prefix(Overlong(table, column, tail, size), size - 1)
  }

  // ---------------------------------------------------------------------------
  // Generating a name
  // ---------------------------------------------------------------------------

  /** Half of an `int`, rounded toward zero as C does. */
  function Half(n: int): int {
    if n >= 0 then n / 2 else -(-n / 2)
  }

  /** The lengths given to a table and a column name that do not fit. */
  method Shares(table: seq<byte>, column: seq<byte>, avail: int) returns (tableNameLen: int, columnNameLen: int)
    requires |table| + |column| > avail
    ensures avail >= 0 ==> tableNameLen >= 0 && columnNameLen >= 0
                           && FairShare(table, column, avail, tableNameLen, columnNameLen)
    ensures avail == -1 ==> tableNameLen < 0 && columnNameLen == 0
    ensures avail < -1 ==> tableNameLen < 0 && columnNameLen < 0
  {
    tableNameLen := |table|;
    columnNameLen := |column|;
    var columnAvail := Half(avail);
    var tableAvail := avail - columnAvail;
    if tableNameLen <= tableAvail {
      columnNameLen := avail - tableNameLen;
    } else if columnNameLen <= columnAvail {
      tableNameLen := avail - columnNameLen;
    } else {
      if columnNameLen > columnAvail {
        columnNameLen := columnAvail;
      }
      tableNameLen := tableAvail;
    }
  }

  predicate Holds(memory: seq<byte>, s: seq<byte>) {
    |s| < |memory| && memory[..|s|] == s && memory[|s|] == 0
  }

  /** Prints a name into the buffer: the four formats, with and without a column name and a number. */
  method PrintName(retBuf: array<byte>, table: seq<byte>, column: Option<seq<byte>>, suffix: seq<byte>,
                   numericSuffix: nat) returns (len: nat)
    requires retBuf.Length > 0
    modifies retBuf
    ensures var name := Assembled(table, column, Tail(suffix, numericSuffix));
            len == |name| && Holds(retBuf[..], Prefix(name, retBuf.Length - 1))
  {
    var text: seq<byte>;
    if numericSuffix == 0 {
      if column.None? {
        text := table + [UNDERSCORE] + suffix;
      } else {
        text := table + [UNDERSCORE] + column.value + [UNDERSCORE] + suffix;
      }
    } else {
      if column.None? {
        text := table + [UNDERSCORE] + suffix + Numeral(numericSuffix, 10);
      } else {
        text := table + [UNDERSCORE] + column.value + [UNDERSCORE] + suffix + Numeral(numericSuffix, 10);
      }
    }
    assert text == Assembled(table, column, Tail(suffix, numericSuffix));
    len := SnPrintF(retBuf, 0, retBuf.Length, text);
  }

  /** What is printed for a table-level name that does not fit. */
  lemma TableNameCut(table: seq<byte>, tail: seq<byte>, size: nat)
    requires 0 < size <= |Assembled(table, None, tail)|
    ensures var text := Assembled(Limited(table, size - |tail| - 2), None, tail);
            && Generated(table, None, tail, size, Prefix(text, size - 1))
            && (|text| + 1 == size <==> HasRoom(None, tail, size))
  {
  }

  /** What is printed for a name with a column part that does not fit. */
  lemma BothNamesCut(table: seq<byte>, column: seq<byte>, tail: seq<byte>, size: nat, t: int, c: int)
    requires 0 < size <= |Assembled(table, Some(column), tail)|
    requires var avail := Available(Some(column), tail, size);
             && (avail >= 0 ==> t >= 0 && c >= 0 && FairShare(table, column, avail, t, c))
             && (avail == -1 ==> t < 0 && c == 0)
             && (avail < -1 ==> t < 0 && c < 0)
    ensures var text := Assembled(Limited(table, t), Some(Limited(column, c)), tail);
            && Generated(table, Some(column), tail, size, Prefix(text, size - 1))
            && (|text| + 1 == size <==> HasRoom(Some(column), tail, size))
  {
  }

  /** Truncates the names to make room for the tail. The length printed is what the source asserts it to be exactly
      when the buffer has room for the tail. */
  method Truncate(table: seq<byte>, column: Option<seq<byte>>, suffix: seq<byte>, numericSuffix: nat,
                  retBuf: array<byte>) returns (len: nat, ghost name: seq<byte>)
    requires 0 < retBuf.Length <= |Assembled(table, column, Tail(suffix, numericSuffix))|
    modifies retBuf
    ensures Holds(retBuf[..], name)
    ensures Generated(table, column, Tail(suffix, numericSuffix), retBuf.Length, name)
    ensures len + 1 == retBuf.Length <==> HasRoom(column, Tail(suffix, numericSuffix), retBuf.Length)
  {
    hide Generated, Limited, FairShare;
    var reserved := |suffix| + 2;
    if numericSuffix != 0 {
      var digits := SnPrintF(retBuf, 0, retBuf.Length, Numeral(numericSuffix, 10));
      reserved := reserved + digits;
    }
    ghost var tail := Tail(suffix, numericSuffix);
    assert reserved == |tail| + 2;
    var tablePart, columnPart;
    if column.None? {
      var tableNameLen := retBuf.Length - reserved;
      tablePart, columnPart := Limited(table, tableNameLen), None;
      TableNameCut(table, tail, retBuf.Length);
    } else {
      var tableNameLen, columnNameLen := Shares(table, column.value, retBuf.Length - reserved - 1);
      tablePart, columnPart := Limited(table, tableNameLen), Some(Limited(column.value, columnNameLen));
      BothNamesCut(table, column.value, tail, retBuf.Length, tableNameLen, columnNameLen);
    }
    len := PrintName(retBuf, tablePart, columnPart, suffix, numericSuffix);
    name := Prefix(Assembled(tablePart, columnPart, tail), retBuf.Length - 1);
  }

  function Suffix(constraint: Constraint): seq<byte> {
    match constraint
    case OptionalCheckConstraint => CHECK
    case PrimaryKey => PKEY
    case UniqueConstraint(_) => KEY
  }

  /** The column part: none for a primary key, the joined columns of a UNIQUE constraint, else the column if any. */
  function ColumnPart(constraint: Constraint, columnName: Option<seq<byte>>): Option<seq<byte>>
    requires constraint.UniqueConstraint? ==> constraint.columns != []
  {
    match constraint
    case OptionalCheckConstraint => columnName
    case PrimaryKey => None
    case UniqueConstraint(columns) => Some(Prefix(Joined(columns), OCTO_MAX_IDENT))
  }

  /** The constraints and names of the source are C strings, and a UNIQUE constraint has columns. */
  predicate WellFormed(constraint: Constraint, tableName: seq<byte>, columnName: Option<seq<byte>>) {
    && IsText(tableName) && (columnName.Some? ==> IsText(columnName.value))
    && (constraint.UniqueConstraint? ==> constraint.columns != [] && forall c <- constraint.columns :: IsText(c))
  }

  ghost predicate NameOf(constraint: Constraint, tableName: seq<byte>, columnName: Option<seq<byte>>,
                         numericSuffix: nat, size: nat, name: seq<byte>)
    requires WellFormed(constraint, tableName, columnName)
  {
    Generated(tableName, ColumnPart(constraint, columnName), Tail(Suffix(constraint), numericSuffix), size, name)
  }

  /** Leaves the generated name in the buffer, closed by a zero byte. */
  method ConstraintNameAutoGenerate(constraint: Constraint, tableName: seq<byte>, columnName: Option<seq<byte>>,
                                    numericSuffix: nat, retBuf: array<byte>)
    requires WellFormed(constraint, tableName, columnName) && retBuf.Length > 0
    modifies retBuf
    ensures 0 in retBuf[..]
    ensures NameOf(constraint, tableName, columnName, numericSuffix, retBuf.Length, CString(retBuf[..]))
  {
    hide Generated, IsText;
    var column, suffix := columnName, CHECK;
    match constraint {
      case OptionalCheckConstraint =>
      case PrimaryKey =>
        column, suffix := None, PKEY;
      case UniqueConstraint(columns) =>
        var colListBuf := JoinColumns(columns);
        column, suffix := Some(CString(colListBuf[..])), KEY;
    }
    ghost var tail := Tail(suffix, numericSuffix);
    ghost var name := Assembled(tableName, column, tail);
    var len := PrintName(retBuf, tableName, column, suffix, numericSuffix);
    if len < retBuf.Length {
      WholeNameIsGenerated(tableName, column, tail, retBuf.Length);
    } else {
      len, name := Truncate(tableName, column, suffix, numericSuffix, retBuf);
    }
    PartsAreText(constraint, tableName, columnName, numericSuffix);
    GeneratedIsText(tableName, column, tail, retBuf.Length, name);
    CStringIs(retBuf[..], name);
  }

  lemma WholeNameIsGenerated(table: seq<byte>, column: Option<seq<byte>>, tail: seq<byte>, size: nat)
    requires |Assembled(table, column, tail)| < size
    ensures forall name :: Generated(table, column, tail, size, name) <==> name == Assembled(table, column, tail)
  {
  }

  lemma PartsAreText(constraint: Constraint, tableName: seq<byte>, columnName: Option<seq<byte>>, numericSuffix: nat)
    requires WellFormed(constraint, tableName, columnName)
    ensures var column := ColumnPart(constraint, columnName);
            IsText(Tail(Suffix(constraint), numericSuffix)) && (column.Some? ==> IsText(column.value))
  {
    DigitsAreDecimal(numericSuffix);
    if constraint.UniqueConstraint? {
      JoinedIsText(constraint.columns);
    }
  }

  lemma GeneratedIsText(table: seq<byte>, column: Option<seq<byte>>, tail: seq<byte>, size: nat, name: seq<byte>)
    requires Generated(table, column, tail, size, name)
    requires IsText(table) && IsText(tail) && (column.Some? ==> IsText(column.value))
    ensures IsText(name)
  {
  }

  // ---------------------------------------------------------------------------
  // Generated names in characters
  // ---------------------------------------------------------------------------

  function Digits(number: nat): seq<byte> {
    if number == 0 then [] else Numeral(number, 10)
  }

  lemma NameInParts(table: seq<byte>, column: Option<seq<byte>>, suffix: seq<byte>, number: nat)
    ensures column.None? ==>
              Assembled(table, None, Tail(suffix, number)) == table + ([95] + suffix) + Digits(number)
    ensures column.Some? ==>
              Assembled(table, column, Tail(suffix, number))
              == table + [95] + column.value + ([95] + suffix) + Digits(number)
  {
    hide Numeral;
  }

  lemma FullName(constraint: Constraint, table: seq<byte>, columnName: Option<seq<byte>>, number: nat, size: nat)
    requires WellFormed(constraint, table, columnName)
    ensures var full := Assembled(table, ColumnPart(constraint, columnName), Tail(Suffix(constraint), number));
            |full| < size ==> forall name :: NameOf(constraint, table, columnName, number, size, name) <==> name == full
  {
    hide Assembled, Generated;
    var column, tail := ColumnPart(constraint, columnName), Tail(Suffix(constraint), number);
    if |Assembled(table, column, tail)| < size {
      WholeNameIsGenerated(table, column, tail, size);
    }
  }

  /** A CHECK constraint: the table, the column if there is one, "check" and the number, with underscores between. */
  lemma CheckName(table: seq<byte>, column: seq<byte>, number: nat, size: nat, name: seq<byte>)
    requires IsText(table) && IsText(column)
    ensures var full := table + Codes("_") + column + Codes("_check") + Digits(number);
            |full| < size ==>
              (NameOf(OptionalCheckConstraint, table, Some(column), number, size, name) <==> name == full)
    ensures var full := table + Codes("_check") + Digits(number);
            |full| < size ==> (NameOf(OptionalCheckConstraint, table, None, number, size, name) <==> name == full)
  {
    hide Generated, IsText;
    NameInParts(table, Some(column), CHECK, number);
    NameInParts(table, None, CHECK, number);
    assert Codes("_") == [95] && Codes("_check") == [95] + CHECK;
    FullName(OptionalCheckConstraint, table, Some(column), number, size);
    FullName(OptionalCheckConstraint, table, None, number, size);
  }

  /** A PRIMARY KEY: the table, "pkey" and the number, whatever the column. */
  lemma PrimaryKeyName(table: seq<byte>, columnName: Option<seq<byte>>, number: nat, size: nat, name: seq<byte>)
    requires WellFormed(PrimaryKey, table, columnName)
    ensures var full := table + Codes("_pkey") + Digits(number);
            |full| < size ==> (NameOf(PrimaryKey, table, columnName, number, size, name) <==> name == full)
  {
    hide Generated, IsText;
    NameInParts(table, None, PKEY, number);
    assert Codes("_pkey") == [95] + PKEY;
    FullName(PrimaryKey, table, columnName, number, size);
  }

  /** A UNIQUE constraint: the table, the columns in their order, "key" and the number. */
  lemma UniqueName(table: seq<byte>, columns: seq<seq<byte>>, columnName: Option<seq<byte>>, number: nat, size: nat,
                   name: seq<byte>)
    requires columns != [] && WellFormed(UniqueConstraint(columns), table, columnName)
    ensures var full := table + Codes("_") + Joined(columns) + Codes("_key") + Digits(number);
            |Joined(columns)| <= 63 && |full| < size ==>
              (NameOf(UniqueConstraint(columns), table, columnName, number, size, name) <==> name == full)
  {
    hide Generated, IsText, Joined;
    NameInParts(table, Some(Joined(columns)), KEY, number);
    assert Codes("_") == [95] && Codes("_key") == [95] + KEY;
    FullName(UniqueConstraint(columns), table, columnName, number, size);
  }

  /** The characters of a join: each column stands behind the columns before it and their underscores. */
  function Offset(columns: seq<seq<byte>>, i: nat): nat
    requires i <= |columns|
  {
    if i == 0 then 0 else Offset(columns, i - 1) + |columns[i - 1]| + 1
  }

  lemma {:induction false} OffsetOfFront(columns: seq<seq<byte>>, n: nat, i: nat)
    requires i <= n <= |columns|
    ensures Offset(columns[..n], i) == Offset(columns, i)
  {
    if i > 0 {
      OffsetOfFront(columns, n, i - 1);
    }
  }

  lemma {:induction false} JoinedAt(columns: seq<seq<byte>>, i: nat)
    requires i < |columns|
    ensures |Joined(columns)| + 1 == Offset(columns, |columns|)
    ensures Offset(columns, i) + |columns[i]| <= |Joined(columns)|
    ensures Joined(columns)[Offset(columns, i)..Offset(columns, i) + |columns[i]|] == columns[i]
    ensures i > 0 ==> Offset(columns, i) > 0 && Joined(columns)[Offset(columns, i) - 1] == 95
    decreases |columns|
  {
    var last := |columns| - 1;
    if last > 0 {
      var front := columns[..last];
      OffsetOfFront(columns, last, last);
      OffsetOfFront(columns, last, if i < last then i else 0);
      JoinedAt(front, if i < last then i else 0);
      var joined, at := Joined(front), Offset(columns, i);
      OneMoreJoined(joined, columns[last], if i < last then at else 0, if i < last then |columns[i]| else 0);
      assert Joined(columns) == joined + [95] + columns[last];
    }
  }

  lemma OneMoreJoined(joined: seq<byte>, name: seq<byte>, at: nat, length: nat)
    requires at + length <= |joined|
    ensures var longer := joined + [95] + name;
            && longer[|joined|] == 95 && longer[|joined| + 1..] == name
            && longer[at..at + length] == joined[at..at + length] && (at > 0 ==> longer[at - 1] == joined[at - 1])
  {
  }

  lemma SomeNames(name: seq<byte>)
    ensures NameOf(OptionalCheckConstraint, Codes("t"), Some(Codes("c")), 2, 64, name) <==> name == Codes("t_c_check2")
    ensures NameOf(PrimaryKey, Codes("t"), None, 0, 64, name) <==> name == Codes("t_pkey")
  {
    hide NameOf, Numeral;
    CheckName(Codes("t"), Codes("c"), 2, 64, name);
    PrimaryKeyName(Codes("t"), None, 0, 64, name);
    NumeralUnfolds(2, 10);
    assert Codes("t") + Codes("_") + Codes("c") + Codes("_check") + [50] == Codes("t_c_check2");
    assert Codes("t") + Codes("_pkey") + [] == Codes("t_pkey");
  }

  lemma SomeUniqueName(name: seq<byte>)
    ensures NameOf(UniqueConstraint([Codes("a"), Codes("b")]), Codes("t"), None, 0, 64, name)
            <==> name == Codes("t_a_b_key")
  {
    hide NameOf, Joined, Numeral;
    JoinedPair(Codes("a"), Codes("b"));
    UniqueName(Codes("t"), [Codes("a"), Codes("b")], None, 0, 64, name);
    AbKey();
  }

  lemma AbKey()
    ensures Codes("a") + Codes("_") + Codes("b") == Codes("a_b")
    ensures Codes("t") + Codes("_") + Codes("a_b") + Codes("_key") + [] == Codes("t_a_b_key")
  {
  }

  lemma JoinedPair(a: seq<byte>, b: seq<byte>)
    ensures Joined([a, b]) == a + Codes("_") + b
  {
    assert [a, b][..1] == [a];
  }

  // ---------------------------------------------------------------------------
  // What holds of generated names
  // ---------------------------------------------------------------------------

  /** The description of a generated name fits one name only. */
  lemma OneName(table: seq<byte>, column: Option<seq<byte>>, tail: seq<byte>, size: nat, name: seq<byte>,
                other: seq<byte>)
    requires Generated(table, column, tail, size, name) && Generated(table, column, tail, size, other)
    ensures name == other
  {
  }

  /** A name fits its buffer. One that had to be shortened fills it, and unless the buffer has no room for the tail,
      it ends with an underscore and the whole tail. */
  lemma NamesFit(table: seq<byte>, column: Option<seq<byte>>, tail: seq<byte>, size: nat, name: seq<byte>)
    requires Generated(table, column, tail, size, name)
    ensures |name| < size
    ensures |Assembled(table, column, tail)| >= size ==> |name| == size - 1
    ensures HasRoom(column, tail, size) ==> EndsWith(name, [UNDERSCORE] + tail)
  {
  }

  predicate IsDigit(d: byte) {
    48 <= d < 58
  }

  function TrailingDigits(name: seq<byte>): seq<byte> {
    if name == [] || !IsDigit(name[|name| - 1]) then []
    else TrailingDigits(name[..|name| - 1]) + [name[|name| - 1]]
  }

  /** What precedes the digits at the end of a name. */
  function BeforeDigits(name: seq<byte>): seq<byte> {
    if name == [] || !IsDigit(name[|name| - 1]) then name else BeforeDigits(name[..|name| - 1])
  }

  lemma {:induction false} SplitAtDigits(front: seq<byte>, digits: seq<byte>)
    requires front != [] && !IsDigit(front[|front| - 1]) && AllDecimal(digits)
    ensures TrailingDigits(front + digits) == digits && BeforeDigits(front + digits) == front
    decreases |digits|
  {
    if digits == [] {
      assert front + digits == front;
    } else {
      var last := |digits| - 1;
      assert (front + digits)[..|front| + last] == front + digits[..last];
      SplitAtDigits(front, digits[..last]);
    }
  }

  /** The number and the kind can be read off a name that ends with an underscore and a whole tail. */
  lemma TailIsReadable(constraint: Constraint, number: nat, name: seq<byte>)
    requires EndsWith(name, [UNDERSCORE] + Tail(Suffix(constraint), number))
    ensures number == if TrailingDigits(name) == [] then 0 else Number(TrailingDigits(name), 10)
    ensures EndsWith(BeforeDigits(name), [UNDERSCORE] + Suffix(constraint))
  {
    hide Numeral, Number, TrailingDigits, BeforeDigits;
    var suffix := Suffix(constraint);
    var digits := if number == 0 then [] else Numeral(number, 10);
    var rest := name[..|name| - |suffix| - |digits| - 1];
    var front := rest + ([UNDERSCORE] + suffix);
    assert name == front + digits by {
      assert [UNDERSCORE] + Tail(suffix, number) == ([UNDERSCORE] + suffix) + digits;
      assert name == rest + name[|rest|..];
    }
    assert front[|front| - 1] == suffix[|suffix| - 1];
    DigitsAreDecimal(number);
    NumeralRoundTrip(number, 10);
    SplitAtDigits(front, digits);
  }

  /** A name generated with room for its tail tells the kind of its constraint and its number, whatever the tables,
      columns and buffers: names with different numbers never coincide, truncated or not. */
  lemma NameTellsKindAndNumber(a: Constraint, tableA: seq<byte>, columnA: Option<seq<byte>>, numberA: nat, sizeA: nat,
                               b: Constraint, tableB: seq<byte>, columnB: Option<seq<byte>>, numberB: nat, sizeB: nat,
                               name: seq<byte>)
    requires WellFormed(a, tableA, columnA) && WellFormed(b, tableB, columnB)
    requires NameOf(a, tableA, columnA, numberA, sizeA, name) && NameOf(b, tableB, columnB, numberB, sizeB, name)
    requires HasRoom(ColumnPart(a, columnA), Tail(Suffix(a), numberA), sizeA)
    requires HasRoom(ColumnPart(b, columnB), Tail(Suffix(b), numberB), sizeB)
    ensures numberA == numberB && Suffix(a) == Suffix(b)
  {
    hide Generated, HasRoom, ColumnPart, Tail, Suffix, TrailingDigits, BeforeDigits, EndsWith;
    NamesFit(tableA, ColumnPart(a, columnA), Tail(Suffix(a), numberA), sizeA, name);
    NamesFit(tableB, ColumnPart(b, columnB), Tail(Suffix(b), numberB), sizeB, name);
    TailIsReadable(a, numberA, name);
    TailIsReadable(b, numberB, name);
    EndingsDiffer(a, b, BeforeDigits(name));
  }

  lemma EndingsDiffer(a: Constraint, b: Constraint, front: seq<byte>)
    requires EndsWith(front, [UNDERSCORE] + Suffix(a)) && EndsWith(front, [UNDERSCORE] + Suffix(b))
    ensures Suffix(a) == Suffix(b)
  {
    var endA, endB := [UNDERSCORE] + Suffix(a), [UNDERSCORE] + Suffix(b);
    assert endA[|endA| - 1] == front[|front| - 1] == endB[|endB| - 1];
    assert endA[|endA| - 4] == front[|front| - 4] == endB[|endB| - 4];
    assert endA[1..] == Suffix(a) && endB[1..] == Suffix(b);
  }

  // ---------------------------------------------------------------------------
  // When names stay apart
  // ---------------------------------------------------------------------------

  /** Without room for the tail, a table name that fills the buffer is itself the name generated from it. */
  lemma TableNameStands(table: seq<byte>, column: Option<seq<byte>>, tail: seq<byte>, size: nat)
    requires |table| + 1 == size && !HasRoom(column, tail, size)
    ensures Generated(table, column, tail, size, table)
  {
    assert Assembled(table, column, tail)[..|table|] == table;
    assert Overlong(table, column, tail, size)[..|table|] == table;
  }

  /** With room for the tail there is, for every column part, a table name that is itself the name generated from it:
      one that already looks like a shortened name. */
  lemma LookalikeTable(column: Option<seq<byte>>, tail: seq<byte>, size: nat) returns (table: seq<byte>)
    requires HasRoom(column, tail, size) && IsText(tail) && (column.Some? ==> IsText(column.value))
    ensures |table| + 1 == size && IsText(table) && Generated(table, column, tail, size, table)
  {
    var avail := Available(column, tail, size);
    if column.None? {
      var front := seq(avail, _ => 65);
      table := Assembled(front, None, tail);
      assert table[..avail] == front;
    } else {
      var c := if |column.value| < avail / 2 then |column.value| else avail / 2;
      var front := seq(avail - c, _ => 65);
      table := Assembled(front, Some(column.value[..c]), tail);
      assert table[..avail - c] == front;
      assert FairShare(table, column.value, avail, avail - c, c);
    }
  }

  ghost predicate Room(constraint: Constraint, columnName: Option<seq<byte>>, number: nat, size: nat)
    requires WellFormed(constraint, [], columnName)
  {
    HasRoom(ColumnPart(constraint, columnName), Tail(Suffix(constraint), number), size)
  }

  /** Two constraints, on tables of any names, are given the same name. */
  ghost predicate Clash(a: Constraint, columnA: Option<seq<byte>>, numberA: nat, tableA: seq<byte>,
                        b: Constraint, columnB: Option<seq<byte>>, numberB: nat, tableB: seq<byte>,
                        size: nat, name: seq<byte>)
  {
    && WellFormed(a, tableA, columnA) && NameOf(a, tableA, columnA, numberA, size, name)
    && WellFormed(b, tableB, columnB) && NameOf(b, tableB, columnB, numberB, size, name)
  }

  /** When one of two constraints has no room for its tail, some table gives both the same name. */
  lemma NamesClash(a: Constraint, columnA: Option<seq<byte>>, numberA: nat,
                   b: Constraint, columnB: Option<seq<byte>>, numberB: nat, size: nat) returns (table: seq<byte>)
    requires size > 0 && WellFormed(a, [], columnA) && WellFormed(b, [], columnB)
    requires !Room(b, columnB, numberB, size)
    ensures Clash(a, columnA, numberA, table, b, columnB, numberB, table, size, table)
  {
    hide Generated, HasRoom, ColumnPart, Tail, Suffix;
    var tail := Tail(Suffix(a), numberA);
    if Room(a, columnA, numberA, size) {
      PartsAreText(a, [], columnA, numberA);
      table := LookalikeTable(ColumnPart(a, columnA), tail, size);
    } else {
      table := seq(size - 1, _ => 65);
      TableNameStands(table, ColumnPart(a, columnA), tail, size);
    }
    TableNameStands(table, ColumnPart(b, columnB), Tail(Suffix(b), numberB), size);
  }

  /** Constraints of different kinds or numbers never get the same name exactly when the buffer has room for both tails,
      a test on the kinds, the presence of column parts, the numbers and the size alone. This is so for constraints on
      one table, whatever its name, and for constraints on any two tables. */
  lemma NamesApartExactlyWithRoom(a: Constraint, columnA: Option<seq<byte>>, numberA: nat,
                                  b: Constraint, columnB: Option<seq<byte>>, numberB: nat, size: nat)
    requires size > 0 && WellFormed(a, [], columnA) && WellFormed(b, [], columnB)
    requires Suffix(a) != Suffix(b) || numberA != numberB
    ensures (forall table, name :: !Clash(a, columnA, numberA, table, b, columnB, numberB, table, size, name))
            <==> Room(a, columnA, numberA, size) && Room(b, columnB, numberB, size)
    ensures (forall tableA, tableB, name ::
               !Clash(a, columnA, numberA, tableA, b, columnB, numberB, tableB, size, name))
            <==> Room(a, columnA, numberA, size) && Room(b, columnB, numberB, size)
  {
    if Room(a, columnA, numberA, size) && Room(b, columnB, numberB, size) {
      forall tableA, tableB, name
        ensures !Clash(a, columnA, numberA, tableA, b, columnB, numberB, tableB, size, name)
      {
        if Clash(a, columnA, numberA, tableA, b, columnB, numberB, tableB, size, name) {
          NameTellsKindAndNumber(a, tableA, columnA, numberA, size, b, tableB, columnB, numberB, size, name);
        }
      }
    } else if !Room(b, columnB, numberB, size) {
      var table := NamesClash(a, columnA, numberA, b, columnB, numberB, size);
      assert Clash(a, columnA, numberA, table, b, columnB, numberB, table, size, table);
    } else {
      var table := NamesClash(b, columnB, numberB, a, columnA, numberA, size);
      assert Clash(a, columnA, numberA, table, b, columnB, numberB, table, size, table);
    }
  }

  /** The room needed, in bytes: the tail, an underscore or two, and the zero byte. */
  lemma RoomInBytes(constraint: Constraint, columnName: Option<seq<byte>>, number: nat, size: nat)
    requires WellFormed(constraint, [], columnName)
    ensures Room(constraint, columnName, number, size)
            <==> size >= |Tail(Suffix(constraint), number)| + if ColumnPart(constraint, columnName).Some? then 3 else 2
  {
  }

  /** A buffer for an identifier has room for every constraint and every number of an `int`, so in such buffers no two
      constraints of different kinds or numbers get the same name. */
  lemma IdentifiersHaveRoom(constraint: Constraint, columnName: Option<seq<byte>>, number: nat)
    requires WellFormed(constraint, [], columnName) && number < INT32_LIMIT
    ensures Room(constraint, columnName, number, 64)
  {
    NumeralLength(number, 10, 10);
    assert Power(10, 5) == 100_000;
    assert Power(10, 10) == 10_000_000_000;
  }
}
