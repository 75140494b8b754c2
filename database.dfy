/** The generic table helpers: `findById`, `create`, `update`, `softDelete`
    and `findAll`. Each is modelled twice over: the SQL text and parameter list
    it builds, and its effect on an in-memory table whose rows carry an `id`
    and an `is_active` flag. */
module Database {
  import opened Wrappers
  import opened Text

  /** A table row: its auto-increment id, the soft-delete flag and the rest. */
  datatype Record<T> = Record(id: int, isActive: bool, data: T)

  /** Ids are auto-increment and rows are never removed, so the row with id
      `k` sits at position `k - 1`. */
  ghost predicate Keyed<T>(rows: seq<Record<T>>)
  {
    forall i :: 0 <= i < |rows| ==> rows[i].id == i + 1
  }

  /** `findById`: the first row with that id whose `is_active` is set, or null. */
  function FindById<T>(rows: seq<Record<T>>, id: int): (r: Option<Record<T>>)
    ensures r.Some? ==> r.value in rows && r.value.id == id && r.value.isActive
    ensures r.None? ==> forall i :: 0 <= i < |rows| ==> !(rows[i].id == id && rows[i].isActive)
  {
    if rows == [] then None
    else if rows[0].id == id && rows[0].isActive then Some(rows[0])
    else FindById(rows[1..], id)
  }

  /** The controllers' own `SELECT * ... WHERE id = ?`, which does not look at
      `is_active`: the first row with that id, deleted or not. */
  function SelectById<T>(rows: seq<Record<T>>, id: int): (r: Option<Record<T>>)
    ensures r.Some? ==> r.value in rows && r.value.id == id
    ensures r.None? ==> forall i :: 0 <= i < |rows| ==> rows[i].id != id
  {
    if rows == [] then None
    else if rows[0].id == id then Some(rows[0])
    else SelectById(rows[1..], id)
  }

  /** On a keyed table both lookups go straight to position `id - 1`;
      `findById` additionally misses a soft-deleted row. */
  lemma KeyedLookup<T>(rows: seq<Record<T>>, id: int)
    requires Keyed(rows)
    ensures SelectById(rows, id) == if 1 <= id <= |rows| then Some(rows[id - 1]) else None
    ensures FindById(rows, id) == if 1 <= id <= |rows| && rows[id - 1].isActive then Some(rows[id - 1]) else None
  {
    var s := SelectById(rows, id);
    if s.Some? {
      var k :| 0 <= k < |rows| && rows[k] == s.value;
    }
    var f := FindById(rows, id);
    if f.Some? {
      var k :| 0 <= k < |rows| && rows[k] == f.value;
    }
  }

  /** What `create` does to the table: one new active row under the next
      auto-increment id. */
  function Insert<T>(rows: seq<Record<T>>, data: T): (r: seq<Record<T>>)
    ensures Keyed(rows) ==> Keyed(r) && FindById(r, |rows| + 1) == Some(Record(|rows| + 1, true, data))
    ensures |r| == |rows| + 1 && r[..|rows|] == rows
  {
    var r := rows + [Record(|rows| + 1, true, data)];
    assert Keyed(rows) ==> Keyed(r) && FindById(r, |rows| + 1) == Some(Record(|rows| + 1, true, data)) by {
      if Keyed(rows) { KeyedLookup(r, |rows| + 1); }
    }
    r
  }

  /** What `update` does to the table: every row with that id gets the new
      values; no row is added, removed or re-keyed. */
  function UpdateRows<T>(rows: seq<Record<T>>, id: int, data: T): (r: seq<Record<T>>)
    ensures |r| == |rows|
    ensures forall i :: 0 <= i < |rows| ==>
      r[i].id == rows[i].id && r[i].isActive == rows[i].isActive &&
      r[i].data == (if rows[i].id == id then data else rows[i].data)
  {
    if rows == [] then []
    else
      var head := if rows[0].id == id then rows[0].(data := data) else rows[0];
      [head] + UpdateRows(rows[1..], id, data)
  }

  /** An update keeps every row's id, so a keyed table stays keyed. */
  lemma UpdateKeepsKeyed<T>(rows: seq<Record<T>>, id: int, data: T)
    requires Keyed(rows)
    ensures Keyed(UpdateRows(rows, id, data))
  {
  }

  /** What `softDelete` does to the table: the rows with that id are marked
      inactive; nothing is removed and no other value changes. */
  function SoftDeleteRows<T>(rows: seq<Record<T>>, id: int): (r: seq<Record<T>>)
    ensures |r| == |rows|
    ensures forall i :: 0 <= i < |rows| ==>
      r[i].id == rows[i].id && r[i].data == rows[i].data &&
      r[i].isActive == (rows[i].isActive && rows[i].id != id)
  {
    if rows == [] then []
    else
      var head := if rows[0].id == id then rows[0].(isActive := false) else rows[0];
      [head] + SoftDeleteRows(rows[1..], id)
  }

  /** After a soft delete, `findById` no longer finds the row, and every
      other id is found as before. */
  lemma SoftDeleteHides<T>(rows: seq<Record<T>>, id: int, other: int)
    requires Keyed(rows)
    ensures Keyed(SoftDeleteRows(rows, id))
    ensures FindById(SoftDeleteRows(rows, id), id).None?
    ensures other != id ==> FindById(SoftDeleteRows(rows, id), other) == FindById(rows, other)
  {
    var r := SoftDeleteRows(rows, id);
    KeyedLookup(rows, other);
    KeyedLookup(r, other);
    KeyedLookup(r, id);
  }

  // ---------------------------------------------------------------------
  // SQL text and parameters

  /** One key of the data object passed to `create`/`update`, in key order. */
  datatype Column<V> = Column(name: string, value: V)

  /** A query text with the values bound to its `?` placeholders. */
  datatype Statement<V> = Statement(sql: string, params: seq<V>)

  function Names<V>(cols: seq<Column<V>>): (r: seq<string>)
    ensures |r| == |cols| && forall i :: 0 <= i < |cols| ==> r[i] == cols[i].name
  {
    if cols == [] then [] else [cols[0].name] + Names(cols[1..])
  }

  function Values<V>(cols: seq<Column<V>>): (r: seq<V>)
    ensures |r| == |cols| && forall i :: 0 <= i < |cols| ==> r[i] == cols[i].value
  {
    if cols == [] then [] else [cols[0].value] + Values(cols[1..])
  }

  /** `keys.map(() => '?')`. */
  function Placeholders(n: nat): (r: seq<string>)
    ensures |r| == n && forall i :: 0 <= i < n ==> r[i] == "?"
  {
    if n == 0 then [] else Placeholders(n - 1) + ["?"]
  }

  /** `keys.map(field => `${field} = ?`)`. */
  function Assignments(names: seq<string>): (r: seq<string>)
    ensures |r| == |names| && forall i :: 0 <= i < |names| ==> r[i] == names[i] + " = ?"
  {
    if names == [] then [] else [names[0] + " = ?"] + Assignments(names[1..])
  }

  /** `create`: `INSERT INTO t (k1, ..., kn) VALUES (?, ..., ?)` with the values
      in key order. */
  function CreateStatement<V>(table: string, cols: seq<Column<V>>): Statement<V>
  {
    Statement("INSERT INTO " + table + " (" + Join(Names(cols), ", ") + ") VALUES ("
              + Join(Placeholders(|cols|), ", ") + ")", Values(cols))
  }

  /** `update`: `UPDATE t SET k1 = ?, ..., kn = ? WHERE id = ?` with the values
      in key order and the id last. With no keys the SET list is empty, which
      the database refuses as a syntax error. */
  function UpdateStatement<V>(table: string, cols: seq<Column<V>>, id: V): Statement<V>
  {
    Statement("UPDATE " + table + " SET " + Join(Assignments(Names(cols)), ", ") + " WHERE id = ?",
              Values(cols) + [id])
  }

  /** `softDelete`: only the flag is written, only on the given id. */
  function SoftDeleteStatement<V>(table: string, id: V): Statement<V>
  {
    Statement("UPDATE " + table + " SET is_active = 0 WHERE id = ?", [id])
  }

  /** `findById`: the active row with the given id. */
  function FindByIdStatement<V>(table: string, id: V, fields: string): Statement<V>
  {
    Statement("SELECT " + fields + " FROM " + table + " WHERE id = ? AND is_active = 1", [id])
  }

  /** Every piece holding `k` occurrences of `c` and a separator holding none
      join to `k` times the number of pieces. */
  lemma {:induction false} CountJoin(parts: seq<string>, sep: string, c: char, k: nat)
    requires c !in sep
    requires forall i :: 0 <= i < |parts| ==> Count(parts[i], c) == k
    ensures Count(Join(parts, sep), c) == k * |parts|
  {
    if |parts| == 1 {
    } else if |parts| > 1 {
      var rest := parts[1..];
      assert forall i :: 0 <= i < |rest| ==> Count(rest[i], c) == k by {
        forall i | 0 <= i < |rest| ensures Count(rest[i], c) == k {
          assert rest[i] == parts[i + 1];
        }
      }
      CountJoin(rest, sep, c, k);
      CountAppend(parts[0] + sep, Join(rest, sep), c);
      CountAppend(parts[0], sep, c);
      CountAbsent(sep, c);
      MulSucc(k, |rest|, |parts|);
    }
  }

  /** One more piece adds `k` more occurrences. */
  lemma MulSucc(k: nat, n: nat, m: nat)
    requires m == n + 1
    ensures k * m == k * n + k
  {
  }

  /** Identifiers without a `?` in them. */
  predicate PlainIdentifiers<V>(table: string, cols: seq<Column<V>>)
  {
    '?' !in table && forall i :: 0 <= i < |cols| ==> '?' !in cols[i].name
  }

  /** `create` binds one value per placeholder, in key order. */
  lemma CreatePlaceholders<V>(table: string, cols: seq<Column<V>>)
    requires PlainIdentifiers(table, cols)
    ensures var st := CreateStatement(table, cols);
      Count(st.sql, '?') == |st.params| == |cols| &&
      forall i :: 0 <= i < |cols| ==> st.params[i] == cols[i].value
  {
    NamesCount(cols);
    MarksCount(|cols|);
    InsertIntoPlain();
    ColumnsOpenPlain();
    ValuesOpenPlain();
    ValuesClosePlain();
    CountAbsent(table, '?');
    CountSeven("INSERT INTO ", table, " (", Join(Names(cols), ", "), ") VALUES (", Join(Placeholders(|cols|), ", "), ")", '?');
  }

  // The fixed pieces of an INSERT hold no `?`; one lemma each keeps every
  // literal in a proof of its own.
  lemma InsertIntoPlain() ensures Count("INSERT INTO ", '?') == 0 { CountAbsent("INSERT INTO ", '?'); }
  lemma ColumnsOpenPlain() ensures Count(" (", '?') == 0 { CountAbsent(" (", '?'); }
  lemma ValuesOpenPlain() ensures Count(") VALUES (", '?') == 0 { CountAbsent(") VALUES (", '?'); }
  lemma ValuesClosePlain() ensures Count(")", '?') == 0 { CountAbsent(")", '?'); }

  /** A column list of plain identifiers holds no `?`. */
  lemma NamesCount<V>(cols: seq<Column<V>>)
    requires forall i :: 0 <= i < |cols| ==> '?' !in cols[i].name
    ensures Count(Join(Names(cols), ", "), '?') == 0
  {
    var names := Names(cols);
    forall i | 0 <= i < |names| ensures Count(names[i], '?') == 0 { CountAbsent(names[i], '?'); }
    CountJoin(names, ", ", '?', 0);
  }

  /** `n` placeholders joined hold `n` marks. */
  lemma MarksCount(n: nat)
    ensures Count(Join(Placeholders(n), ", "), '?') == n
  {
    var marks := Placeholders(n);
    forall i | 0 <= i < n ensures Count(marks[i], '?') == 1 { }
    CountJoin(marks, ", ", '?', 1);
  }

  /** Counting distributes over a seven-part concatenation. */
  lemma CountSeven(p1: string, p2: string, p3: string, p4: string, p5: string, p6: string, p7: string, c: char)
    ensures Count(p1 + p2 + p3 + p4 + p5 + p6 + p7, c) ==
            Count(p1, c) + Count(p2, c) + Count(p3, c) + Count(p4, c) + Count(p5, c) + Count(p6, c) + Count(p7, c)
  {
    CountAppend(p1, p2, c);
    CountAppend(p1 + p2, p3, c);
    CountAppend(p1 + p2 + p3, p4, c);
    CountAppend(p1 + p2 + p3 + p4, p5, c);
    CountAppend(p1 + p2 + p3 + p4 + p5, p6, c);
    CountAppend(p1 + p2 + p3 + p4 + p5 + p6, p7, c);
  }

  lemma AssignmentCount(name: string)
    requires '?' !in name
    ensures Count(name + " = ?", '?') == 1
  {
    assert '?' !in " = ";
    CountAbsent(name + " = ", '?');
    assert name + " = ?" == (name + " = ") + "?";
    CountAppend(name + " = ", "?", '?');
  }

  /** `update` has one placeholder per key plus the id's, and binds exactly
      that many values, the id last. */
  lemma UpdatePlaceholders<V>(table: string, cols: seq<Column<V>>, id: V)
    requires PlainIdentifiers(table, cols)
    ensures var st := UpdateStatement(table, cols, id);
      Count(st.sql, '?') == |st.params| == |cols| + 1 &&
      st.params[|cols|] == id &&
      forall i :: 0 <= i < |cols| ==> st.params[i] == cols[i].value
  {
    var names := Names(cols);
    var asg := Assignments(names);
    var head, a, tail := "UPDATE " + table + " SET ", Join(asg, ", "), " WHERE id = ?";
    assert Count(a, '?') == |cols| by {
      forall i | 0 <= i < |asg| ensures Count(asg[i], '?') == 1 {
        AssignmentCount(names[i]);
      }
      CountJoin(asg, ", ", '?', 1);
    }
    assert Count(head, '?') == 0 by {
      assert '?' !in "UPDATE " && '?' !in " SET ";
      CountAbsent(head, '?');
    }
    assert Count(tail, '?') == 1 by {
      assert '?' !in " WHERE id = ";
      OneTrailingMark(" WHERE id = ");
      assert tail == " WHERE id = " + "?";
    }
    CountAppend(head, a, '?');
    CountAppend(head + a, tail, '?');
  }

  /** `softDelete` has one placeholder and binds only the id. */
  lemma SoftDeletePlaceholder<V>(table: string, id: V)
    requires '?' !in table
    ensures var st := SoftDeleteStatement(table, id);
      Count(st.sql, '?') == |st.params| == 1 && st.params == [id]
  {
    UpdateKeywordPlain();
    SetInactiveMark();
    CountAbsent(table, '?');
    CountAppend("UPDATE ", table, '?');
    CountAppend("UPDATE " + table, " SET is_active = 0 WHERE id = ?", '?');
  }

  /** `findById` has one placeholder and binds only the id. */
  lemma FindByIdPlaceholder<V>(table: string, id: V, fields: string)
    requires '?' !in table && '?' !in fields
    ensures var st := FindByIdStatement(table, id, fields);
      Count(st.sql, '?') == |st.params| == 1 && st.params == [id]
  {
    SelectKeywordPlain();
    FromKeywordPlain();
    WhereIdActiveMark();
    CountAbsent(table, '?');
    CountAbsent(fields, '?');
    CountFive("SELECT ", fields, " FROM ", table, " WHERE id = ? AND is_active = 1", '?');
  }

  /** Counting distributes over a five-part concatenation. */
  lemma CountFive(p1: string, p2: string, p3: string, p4: string, p5: string, c: char)
    ensures Count(p1 + p2 + p3 + p4 + p5, c) == Count(p1, c) + Count(p2, c) + Count(p3, c) + Count(p4, c) + Count(p5, c)
  {
    CountAppend(p1, p2, c);
    CountAppend(p1 + p2, p3, c);
    CountAppend(p1 + p2 + p3, p4, c);
    CountAppend(p1 + p2 + p3 + p4, p5, c);
  }

  // The fixed pieces of those statements, one lemma each.
  lemma UpdateKeywordPlain() ensures Count("UPDATE ", '?') == 0 { CountAbsent("UPDATE ", '?'); }
  lemma SelectKeywordPlain() ensures Count("SELECT ", '?') == 0 { CountAbsent("SELECT ", '?'); }
  lemma FromKeywordPlain() ensures Count(" FROM ", '?') == 0 { CountAbsent(" FROM ", '?'); }

  lemma SetInactiveMark()
    ensures Count(" SET is_active = 0 WHERE id = ?", '?') == 1
  {
    assert '?' !in " SET is_active = 0 WHERE id = ";
    OneTrailingMark(" SET is_active = 0 WHERE id = ");
    assert " SET is_active = 0 WHERE id = ?" == " SET is_active = 0 WHERE id = " + "?";
  }

  lemma WhereIdActiveMark()
    ensures Count(" WHERE id = ? AND is_active = 1", '?') == 1
  {
    WhereIdPlain();
    ActiveOnlyPlain();
    MarkBetween(" WHERE id = ", " AND is_active = 1");
    assert " WHERE id = ? AND is_active = 1" == " WHERE id = " + "?" + " AND is_active = 1";
  }

  lemma WhereIdPlain() ensures '?' !in " WHERE id = " { }
  lemma ActiveOnlyPlain() ensures '?' !in " AND is_active = 1" { }

  /** One `?` between two texts without one. */
  lemma MarkBetween(a: string, b: string)
    requires '?' !in a && '?' !in b
    ensures Count(a + "?" + b, '?') == 1
  {
    OneTrailingMark(a);
    CountAbsent(b, '?');
    CountAppend(a + "?", b, '?');
  }

  /** A text without `?` followed by one `?` holds exactly one. */
  lemma OneTrailingMark(s: string)
    requires '?' !in s
    ensures Count(s + "?", '?') == 1
  {
    CountAbsent(s, '?');
    CountAppend(s, "?", '?');
  }

  // ---------------------------------------------------------------------
  // Pagination

  /** `(page - 1) * limit`. */
  function Offset(page: int, limit: nat): int
  {
    (page - 1) * limit
  }

  /** `Math.ceil(total / limit)`; with a zero limit the quotient is Infinity
      or NaN, written `None`. */
  function Pages(total: nat, limit: nat): (r: Option<nat>)
    ensures r.Some? <==> limit > 0
  {
    if limit == 0 then None else Some((total + limit - 1) / limit)
  }

  /** The pages cover every row, the last page is not empty, and consecutive
      pages start `limit` rows apart: pages 1..p start at offsets below
      `total`, and `p` pages of `limit` rows hold at least `total` rows. */
  lemma PagesCover(total: nat, limit: nat, page: int)
    requires limit > 0
    ensures var p := Pages(total, limit).value;
      p * limit >= total && (p == 0 <==> total == 0) &&
      (1 <= page <= p ==> 0 <= Offset(page, limit) < total) &&
      Offset(page + 1, limit) == Offset(page, limit) + limit
  {
    var p := Pages(total, limit).value;
    CeilingCovers(total, limit);
    assert Offset(page + 1, limit) == Offset(page, limit) + limit by {
      MulStep(page - 1, limit);
    }
    if 1 <= page <= p {
      MulMonotone(page - 1, p - 1, limit);
    }
  }

  /** `ceil(total / limit)` pages of `limit` rows hold every row, one page
      fewer does not, and there are no pages exactly when there are no rows. */
  lemma CeilingCovers(total: nat, limit: nat)
    requires limit > 0
    ensures var p := (total + limit - 1) / limit;
      p * limit >= total && (p == 0 <==> total == 0) && (p > 0 ==> (p - 1) * limit < total)
  {
    var p := (total + limit - 1) / limit;
    var rem := (total + limit - 1) % limit;
    assert total + limit - 1 == p * limit + rem && 0 <= rem < limit;
    MulStep(p - 1, limit);
    if total == 0 {
      assert p == 0;
    }
  }

  lemma MulStep(a: int, b: int)
    ensures (a + 1) * b == a * b + b
  {
  }

  lemma MulMonotone(a: int, b: int, c: nat)
    requires 0 <= a <= b
    ensures 0 <= a * c <= b * c
  {
    assert b * c - a * c == (b - a) * c;
  }

  /** The `pagination` object of a listing. */
  datatype Pagination = Pagination(page: int, limit: nat, total: nat, pages: Option<nat>)

  /** The options of `findAll`, all of them given; the code fills in page 1,
      ten rows, ascending id, no filter and every field for those left out. */
  datatype FindAllOptions = FindAllOptions(page: int, limit: nat, orderBy: string, orderDir: string, where: string, fields: string)

  /** The WHERE part of both `findAll` queries: the caller's filter, or active
      rows only when there is none. */
  function Filter(where: string): string
  {
    if where != "" then " WHERE " + where else " WHERE is_active = 1"
  }

  /** The ORDER/LIMIT/OFFSET tail, with the numbers written into the text. */
  function PageClause(o: FindAllOptions): string
  {
    " ORDER BY " + o.orderBy + " " + o.orderDir + " LIMIT " + DecimalString(o.limit)
    + " OFFSET " + IntString(Offset(o.page, o.limit))
  }

  /** `findAll`'s two query texts, built by appending. Both carry the same
      filter, and without one both count only active rows. */
  method FindAllQueries(table: string, o: FindAllOptions) returns (query: string, countQuery: string)
    ensures query == "SELECT " + o.fields + " FROM " + table + Filter(o.where) + PageClause(o)
    ensures countQuery == "SELECT COUNT(*) as total FROM " + table + Filter(o.where)
    ensures o.where == "" ==>
      query == "SELECT " + o.fields + " FROM " + table + " WHERE is_active = 1" + PageClause(o) &&
      countQuery == "SELECT COUNT(*) as total FROM " + table + " WHERE is_active = 1"
  {
    var offset := (o.page - 1) * o.limit;
    query := "SELECT " + o.fields + " FROM " + table;
    if o.where != "" {
      query := query + (" WHERE " + o.where);
    } else {
      query := query + " WHERE is_active = 1";
    }
    query := query + (" ORDER BY " + o.orderBy + " " + o.orderDir + " LIMIT " + DecimalString(o.limit)
                      + " OFFSET " + IntString(offset));
    countQuery := "SELECT COUNT(*) as total FROM " + table;
    if o.where != "" {
      countQuery := countQuery + (" WHERE " + o.where);
    } else {
      countQuery := countQuery + " WHERE is_active = 1";
    }
  }

  /** `findAll`'s pagination object for a count of matching rows. */
  function Paginate(o: FindAllOptions, total: nat): (p: Pagination)
    ensures p.page == o.page && p.limit == o.limit && p.total == total
    ensures p.pages.Some? <==> o.limit > 0
    ensures p.pages.Some? ==>
      p.pages.value * p.limit >= total &&
      (p.pages.value > 0 ==> (p.pages.value - 1) * p.limit < total) &&
      (p.pages.value == 0 <==> total == 0)
  {
    if o.limit > 0 then
      CeilingCovers(total, o.limit);
      Pagination(o.page, o.limit, total, Pages(total, o.limit))
    else
      Pagination(o.page, o.limit, total, Pages(total, o.limit))
  }
}
