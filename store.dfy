/**
 * The record store of database.py: the `livros` table, the keyword-argument
 * partial update with its allow-list and SET-clause builder, and the class
 * `Database` whose methods change the table in place.
 *
 * SQLite is read as an abstract table: a map from row id to row, plus the
 * `sqlite_sequence` counter that `AUTOINCREMENT` keeps (the largest id ever
 * issued), so that ids are fresh and never reused after a delete.
 */
module Store {
  import opened Wrappers

  /** One row of `livros`, as `get_livro_by_id` returns it (the id column included). */
  datatype Livro = Livro(id: int, titulo: string, autor: string, anoPublicacao: int, disponivel: bool)

  /** A value passed as a keyword argument to `update_livro`. */
  datatype Value = Text(s: string) | Integer(n: int) | Boolean(b: bool)

  /** Keyword arguments `key=value`, in the order the caller wrote them. */
  type Kwargs = seq<(string, Value)>

  /** The columns `update_livro` lets a caller set. */
  const Columns: seq<string> := ["titulo", "autor", "ano_publicacao", "disponivel"]

  predicate Allowed(key: string) {
    key in Columns
  }

  /** An allowed key carries a value of its column's kind; other keys may carry anything. */
  predicate WellTyped(arg: (string, Value)) {
    if arg.0 == "titulo" || arg.0 == "autor" then arg.1.Text?
    else if arg.0 == "ano_publicacao" then arg.1.Integer?
    else if arg.0 == "disponivel" then arg.1.Boolean?
    else true
  }

  predicate AllWellTyped(kwargs: Kwargs) {
    forall i :: 0 <= i < |kwargs| ==> WellTyped(kwargs[i])
  }

  // ---------------------------------------------------------------------------
  // The allow-list filter and the lookup of supplied values
  // ---------------------------------------------------------------------------

  /** The arguments whose key is an allowed column, in argument order; the rest are dropped silently. */
  function Kept(kwargs: Kwargs): Kwargs {
    if kwargs == [] then []
    else
      var last := kwargs[|kwargs| - 1];
      Kept(kwargs[..|kwargs| - 1]) + (if Allowed(last.0) then [last] else [])
  }

  /** An argument survives the filter iff it was passed and its key is allowed. */
  lemma {:induction false} KeptMembers(kwargs: Kwargs)
    ensures |Kept(kwargs)| <= |kwargs|
    ensures forall a :: a in Kept(kwargs) <==> a in kwargs && Allowed(a.0)
  {
    if kwargs != [] {
      var init := kwargs[..|kwargs| - 1];
      KeptMembers(init);
      assert kwargs == init + [kwargs[|kwargs| - 1]];
    }
  }

  /** Filtering keeps the arguments' relative order: it distributes over concatenation. */
  lemma {:induction false} KeptAppend(a: Kwargs, b: Kwargs)
    ensures Kept(a + b) == Kept(a) + Kept(b)
  {
    if b == [] {
      assert a + b == a;
    } else {
      var b' := b[..|b| - 1];
      assert (a + b)[..|a + b| - 1] == a + b';
      KeptAppend(a, b');
    }
  }

  /** When every key is allowed, the filter drops nothing. */
  lemma {:induction false} KeptAllAllowed(kwargs: Kwargs)
    requires forall i :: 0 <= i < |kwargs| ==> Allowed(kwargs[i].0)
    ensures Kept(kwargs) == kwargs
  {
    if kwargs != [] {
      var init := kwargs[..|kwargs| - 1];
      KeptAllAllowed(init);
      assert init + [kwargs[|kwargs| - 1]] == kwargs;
    }
  }

  /** The value a statement finally stores for `key`: SQLite keeps the rightmost of repeated assignments. */
  function Supplied(kwargs: Kwargs, key: string): (r: Option<Value>)
    ensures r.Some? ==> (key, r.value) in kwargs
  {
    if kwargs == [] then None
    else if kwargs[|kwargs| - 1].0 == key then Some(kwargs[|kwargs| - 1].1)
    else
      var r := Supplied(kwargs[..|kwargs| - 1], key);
      assert r.Some? ==> (key, r.value) in kwargs[..|kwargs| - 1];
      r
  }

  /** A value is supplied for `key` iff some argument names it. */
  lemma {:induction false} SuppliedPresent(kwargs: Kwargs, key: string)
    ensures Supplied(kwargs, key).Some? <==> exists i :: 0 <= i < |kwargs| && kwargs[i].0 == key
  {
    if kwargs != [] && kwargs[|kwargs| - 1].0 != key {
      var init := kwargs[..|kwargs| - 1];
      SuppliedPresent(init, key);
      assert forall i :: 0 <= i < |init| ==> init[i] == kwargs[i];
    }
  }

  /** In a concatenation the right part's assignment to a key wins. */
  lemma {:induction false} SuppliedAppend(a: Kwargs, b: Kwargs, key: string)
    ensures Supplied(a + b, key) == Supplied(b, key).OrElse(Supplied(a, key))
  {
    if b == [] {
      assert a + b == a;
    } else {
      assert (a + b)[..|a + b| - 1] == a + b[..|b| - 1];
      SuppliedAppend(a, b[..|b| - 1], key);
    }
  }

  /** Filtering never changes what is supplied for an allowed column. */
  lemma {:induction false} SuppliedKept(kwargs: Kwargs, key: string)
    requires Allowed(key)
    ensures Supplied(Kept(kwargs), key) == Supplied(kwargs, key)
  {
    if kwargs != [] {
      var init, last := kwargs[..|kwargs| - 1], kwargs[|kwargs| - 1];
      SuppliedKept(init, key);
      if Allowed(last.0) {
        assert (Kept(init) + [last])[..|Kept(init) + [last]| - 1] == Kept(init);
      } else {
        assert Kept(init) + [] == Kept(init);
      }
    }
  }

  // ---------------------------------------------------------------------------
  // The effect of `UPDATE livros SET c1 = ?, ..., cn = ? WHERE id = ?` on a row
  // ---------------------------------------------------------------------------

  /** One `column = ?` assignment applied to a row. */
  function Assign(row: Livro, arg: (string, Value)): Livro {
    if arg.0 == "titulo" && arg.1.Text? then row.(titulo := arg.1.s)
    else if arg.0 == "autor" && arg.1.Text? then row.(autor := arg.1.s)
    else if arg.0 == "ano_publicacao" && arg.1.Integer? then row.(anoPublicacao := arg.1.n)
    else if arg.0 == "disponivel" && arg.1.Boolean? then row.(disponivel := arg.1.b)
    else row
  }

  /** The assignments of a SET clause applied left to right. */
  function ApplyAll(row: Livro, args: Kwargs): Livro {
    if args == [] then row else Assign(ApplyAll(row, args[..|args| - 1]), args[|args| - 1])
  }

  /** No assignment touches the id column. */
  lemma {:induction false} ApplyAllKeepsId(row: Livro, args: Kwargs)
    ensures ApplyAll(row, args).id == row.id
  {
    if args != [] {
      ApplyAllKeepsId(row, args[..|args| - 1]);
    }
  }

  function TextOr(v: Option<Value>, default: string): string {
    if v.Some? && v.value.Text? then v.value.s else default
  }

  function IntegerOr(v: Option<Value>, default: int): int {
    if v.Some? && v.value.Integer? then v.value.n else default
  }

  function BooleanOr(v: Option<Value>, default: bool): bool {
    if v.Some? && v.value.Boolean? then v.value.b else default
  }

  /**
   * A partial update replaces exactly the supplied columns: each column of the
   * new row is the value supplied for it, or the old value when none was; the
   * id never changes.
   */
  lemma {:induction false} ApplyAllColumns(row: Livro, args: Kwargs)
    requires AllWellTyped(args)
    ensures ApplyAll(row, args) == Livro(row.id,
                                         TextOr(Supplied(args, "titulo"), row.titulo),
                                         TextOr(Supplied(args, "autor"), row.autor),
                                         IntegerOr(Supplied(args, "ano_publicacao"), row.anoPublicacao),
                                         BooleanOr(Supplied(args, "disponivel"), row.disponivel))
  {
    if args != [] {
      var init := args[..|args| - 1];
      assert forall i :: 0 <= i < |init| ==> init[i] == args[i];
      ApplyAllColumns(row, init);
      assert WellTyped(args[|args| - 1]);
    }
  }

  /**
   * The update's effect for any keyword arguments: after the allow-list
   * filter, exactly the allowed columns that were supplied change, each to the
   * value supplied for it; other keys have no effect and the id is kept.
   */
  lemma UpdateColumns(row: Livro, kwargs: Kwargs)
    requires AllWellTyped(kwargs)
    ensures ApplyAll(row, Kept(kwargs)) == Livro(row.id,
                                                 TextOr(Supplied(kwargs, "titulo"), row.titulo),
                                                 TextOr(Supplied(kwargs, "autor"), row.autor),
                                                 IntegerOr(Supplied(kwargs, "ano_publicacao"), row.anoPublicacao),
                                                 BooleanOr(Supplied(kwargs, "disponivel"), row.disponivel))
  {
    var kept := Kept(kwargs);
    KeptMembers(kwargs);
    assert forall i :: 0 <= i < |kept| ==> kept[i] in kwargs;
    ApplyAllColumns(row, kept);
    SuppliedKept(kwargs, "titulo");
    SuppliedKept(kwargs, "autor");
    SuppliedKept(kwargs, "ano_publicacao");
    SuppliedKept(kwargs, "disponivel");
  }

  // ---------------------------------------------------------------------------
  // The statement `update_livro` builds
  // ---------------------------------------------------------------------------

  /** A parameterized SQL statement: its text and the values bound to its `?` placeholders, in order. */
  datatype Statement = Statement(sql: string, params: seq<Value>)

  /** The `fields` list: one `key = ?` per kept argument. */
  function Fields(kept: Kwargs): (r: seq<string>)
    ensures |r| == |kept|
    ensures forall i :: 0 <= i < |r| ==> r[i] == kept[i].0 + " = ?"
  {
    if kept == [] then [] else Fields(kept[..|kept| - 1]) + [kept[|kept| - 1].0 + " = ?"]
  }

  /** The `values` list before the id is appended: the kept values in argument order. */
  function Values(kept: Kwargs): (r: seq<Value>)
    ensures |r| == |kept|
    ensures forall i :: 0 <= i < |r| ==> r[i] == kept[i].1
  {
    if kept == [] then [] else Values(kept[..|kept| - 1]) + [kept[|kept| - 1].1]
  }

  /** Adding one kept argument adds its assignment and its value at the end. */
  lemma FieldsValuesSnoc(kept: Kwargs, arg: (string, Value))
    ensures Fields(kept + [arg]) == Fields(kept) + [arg.0 + " = ?"]
    ensures Values(kept + [arg]) == Values(kept) + [arg.1]
  {
    assert (kept + [arg])[..|kept|] == kept;
  }

  /** One more argument of the loop extends the filtered prefix by that argument, when allowed. */
  lemma KeptStep(kwargs: Kwargs, i: nat)
    requires i < |kwargs|
    ensures Kept(kwargs[..i + 1]) == Kept(kwargs[..i]) + (if Allowed(kwargs[i].0) then [kwargs[i]] else [])
  {
    assert kwargs[..i + 1][..i] == kwargs[..i];
  }

  /** Python's `sep.join(parts)`. */
  function Join(sep: string, parts: seq<string>): string {
    if parts == [] then ""
    else if |parts| == 1 then parts[0]
    else Join(sep, parts[..|parts| - 1]) + sep + parts[|parts| - 1]
  }

  /** The text of the update: `UPDATE livros SET <fields joined by ", "> WHERE id = ?`. */
  function UpdateSql(kept: Kwargs): string {
    "UPDATE livros SET " + Join(", ", Fields(kept)) + " WHERE id = ?"
  }

  /** The number of occurrences of `c` in `s`. */
  function Count(s: string, c: char): nat {
    if s == [] then 0 else Count(s[..|s| - 1], c) + (if s[|s| - 1] == c then 1 else 0)
  }

  lemma {:induction false} CountConcat(a: string, b: string, c: char)
    ensures Count(a + b, c) == Count(a, c) + Count(b, c)
  {
    if b == [] {
      assert a + b == a;
    } else {
      assert (a + b)[..|a + b| - 1] == a + b[..|b| - 1];
      CountConcat(a, b[..|b| - 1], c);
    }
  }

  lemma {:induction false} CountAbsent(s: string, c: char)
    requires c !in s
    ensures Count(s, c) == 0
  {
    if s != [] {
      assert s[..|s| - 1] + [s[|s| - 1]] == s;
      CountAbsent(s[..|s| - 1], c);
    }
  }

  /** Joining with a separator free of `c` leaves as many `c` as the parts hold together. */
  lemma {:induction false} JoinCount(sep: string, parts: seq<string>, c: char)
    requires Count(sep, c) == 0
    requires forall i :: 0 <= i < |parts| ==> Count(parts[i], c) == 1
    ensures Count(Join(sep, parts), c) == |parts|
  {
    if |parts| == 1 {
    } else if |parts| > 1 {
      var init := parts[..|parts| - 1];
      JoinCount(sep, init, c);
      CountConcat(Join(sep, init), sep, c);
      CountConcat(Join(sep, init) + sep, parts[|parts| - 1], c);
    }
  }

  /** An assignment `key = ?` for an allowed column holds exactly one placeholder. */
  lemma AssignmentPlaceholder(key: string)
    requires Allowed(key)
    ensures Count(key + " = ?", '?') == 1
  {
    CountAbsent(key, '?');
    CountConcat(key, " = ?", '?');
    assert " = ?" == " = " + "?";
    CountConcat(" = ", "?", '?');
    CountAbsent(" = ", '?');
  }

  /**
   * The built update has exactly one `?` per kept field plus one for the id,
   * so the parameter list (kept values, then the id) fills every placeholder.
   */
  lemma PlaceholderCount(kept: Kwargs)
    requires forall i :: 0 <= i < |kept| ==> Allowed(kept[i].0)
    ensures Count(UpdateSql(kept), '?') == |kept| + 1
  {
    var fields := Fields(kept);
    forall i | 0 <= i < |fields| ensures Count(fields[i], '?') == 1 {
      AssignmentPlaceholder(kept[i].0);
    }
    QueryLiterals();
    JoinCount(", ", fields, '?');
    CountConcat("UPDATE livros SET ", Join(", ", fields), '?');
    CountConcat("UPDATE livros SET " + Join(", ", fields), " WHERE id = ?", '?');
  }

  /** The fixed parts of the query: only the WHERE clause holds a placeholder. */
  lemma QueryLiterals()
    ensures Count(", ", '?') == 0
    ensures Count("UPDATE livros SET ", '?') == 0
    ensures Count(" WHERE id = ?", '?') == 1
  {
    CountAbsent(", ", '?');
    CountAbsent("UPDATE livros SET ", '?');
    assert " WHERE id = ?" == " WHERE id = " + "?";
    CountAbsent(" WHERE id = ", '?');
    CountConcat(" WHERE id = ", "?", '?');
  }

  /**
   * The loop of `update_livro` that filters the arguments against the
   * allow-list and builds `fields` and `values` side by side, followed by the
   * `if not fields` exit and the assembly of the query with the id appended.
   */
  method BuildUpdate(livroId: int, kwargs: Kwargs) returns (stmt: Option<Statement>)
    ensures stmt.None? <==> Kept(kwargs) == []
    ensures stmt.Some? ==> stmt.value.sql == UpdateSql(Kept(kwargs))
    ensures stmt.Some? ==> stmt.value.params == Values(Kept(kwargs)) + [Integer(livroId)]
    ensures stmt.Some? ==> Count(stmt.value.sql, '?') == |stmt.value.params|
  {
    var fields: seq<string> := [];
    var values: seq<Value> := [];
    ghost var kept: Kwargs := [];
    for i := 0 to |kwargs|
      invariant kept == Kept(kwargs[..i])
      invariant fields == Fields(kept) && values == Values(kept)
    {
      var (key, value) := kwargs[i];
      KeptStep(kwargs, i);
      if Allowed(key) {
        FieldsValuesSnoc(kept, (key, value));
        fields := fields + [key + " = ?"];
        values := values + [value];
        kept := kept + [(key, value)];
      }
    }
    assert kwargs[..|kwargs|] == kwargs;
    if fields == [] {
      return None;
    }
    values := values + [Integer(livroId)];
    var query := "UPDATE livros SET " + Join(", ", fields) + " WHERE id = ?";
    KeptMembers(kwargs);
    PlaceholderCount(Kept(kwargs));
    return Some(Statement(query, values));
  }

  // ---------------------------------------------------------------------------
  // Listing the table
  // ---------------------------------------------------------------------------

  /** Every row is stored under its own id. */
  ghost predicate Keyed(t: map<int, Livro>) {
    forall k :: k in t ==> t[k].id == k
  }

  /** The stored ids in `lo .. hi - 1`. */
  ghost function IdsBetween(t: map<int, Livro>, lo: int, hi: int): set<int> {
    set k | k in t && lo <= k < hi
  }

  /** A scan of the rows with ids `lo .. hi - 1`, in ascending id order. */
  function RowsBetween(t: map<int, Livro>, lo: int, hi: int): seq<Livro>
    decreases hi - lo
  {
    if lo >= hi then []
    else (if lo in t then [t[lo]] else []) + RowsBetween(t, lo + 1, hi)
  }

  /** The scan yields exactly the stored rows in range, in strictly ascending id order. */
  lemma {:induction false} RowsBetweenContents(t: map<int, Livro>, lo: int, hi: int)
    requires Keyed(t)
    ensures forall i :: 0 <= i < |RowsBetween(t, lo, hi)| ==>
              var l := RowsBetween(t, lo, hi)[i]; l.id in t && t[l.id] == l && lo <= l.id < hi
    ensures forall k :: k in t && lo <= k < hi ==> t[k] in RowsBetween(t, lo, hi)
    ensures forall i, j :: 0 <= i < j < |RowsBetween(t, lo, hi)| ==>
              RowsBetween(t, lo, hi)[i].id < RowsBetween(t, lo, hi)[j].id
    decreases hi - lo
  {
    if lo < hi {
      RowsBetweenContents(t, lo + 1, hi);
    }
  }

  lemma {:induction false} RowsBetweenLength(t: map<int, Livro>, lo: int, hi: int)
    ensures |RowsBetween(t, lo, hi)| == |IdsBetween(t, lo, hi)|
    decreases hi - lo
  {
    if lo >= hi {
      assert IdsBetween(t, lo, hi) == {};
    } else {
      RowsBetweenLength(t, lo + 1, hi);
      var rest := IdsBetween(t, lo + 1, hi);
      if lo in t {
        assert IdsBetween(t, lo, hi) == rest + {lo};
        assert lo !in rest;
      } else {
        assert IdsBetween(t, lo, hi) == rest;
      }
    }
  }

  // ---------------------------------------------------------------------------
  // The database object
  // ---------------------------------------------------------------------------

  class Database {
    /** The `livros` table: row id to row. */
    var table: map<int, Livro>
    /** The AUTOINCREMENT counter: the largest id ever issued (0 before the first insert). */
    var lastId: int

    ghost predicate Valid()
      reads this
    {
      && 0 <= lastId
      && Keyed(table)
      && forall k :: k in table ==> 1 <= k <= lastId
    }

    /** A database whose `livros` table has just been created: no rows, no id issued. */
    constructor ()
      ensures Valid()
      ensures table == map[] && lastId == 0
    {
      table := map[];
      lastId := 0;
    }

    /**
     * `INSERT INTO livros (...) VALUES (?, ?, ?, ?)`: the new row takes the id
     * after the largest ever issued, which no stored row has and which exceeds
     * every earlier id; `disponivel` defaults to true.
     */
    method CreateLivro(titulo: string, autor: string, anoPublicacao: int, disponivel: bool := true)
      returns (id: int)
      requires Valid()
      modifies this
      ensures Valid()
      ensures id == old(lastId) + 1 && lastId == id
      ensures id !in old(table) && forall k :: k in old(table) ==> k < id
      ensures table == old(table)[id := Livro(id, titulo, autor, anoPublicacao, disponivel)]
    {
      id := lastId + 1;
      table := table[id := Livro(id, titulo, autor, anoPublicacao, disponivel)];
      lastId := id;
    }

    /** `SELECT * FROM livros`: every stored row exactly once. */
    function GetAllLivros(): (r: seq<Livro>)
      reads this
      requires Valid()
      ensures forall l :: l in r <==> l in table.Values
      ensures forall i, j :: 0 <= i < j < |r| ==> r[i] != r[j]
      ensures |r| == |table|
    {
      var r := RowsBetween(table, 1, lastId + 1);
      RowsBetweenContents(table, 1, lastId + 1);
      RowsBetweenLength(table, 1, lastId + 1);
      assert IdsBetween(table, 1, lastId + 1) == table.Keys;
      assert forall l :: l in table.Values ==> exists k :: k in table && table[k] == l;
      r
    }

    /** `SELECT * FROM livros WHERE id = ?`: the row with that id, or None. */
    function GetLivroById(livroId: int): (r: Option<Livro>)
      reads this
      ensures r.Some? <==> livroId in table
      ensures r.Some? ==> r.value == table[livroId]
      ensures Valid() && r.Some? ==> r.value.id == livroId
    {
      if livroId in table then Some(table[livroId]) else None
    }

    /** `UPDATE livros SET ... WHERE id = ?` as built by BuildUpdate. */
    method UpdateLivro(livroId: int, kwargs: Kwargs) returns (ok: bool)
      requires Valid()
      requires AllWellTyped(kwargs)
      modifies this
      ensures Valid() && lastId == old(lastId)
      ensures ok <==> Kept(kwargs) != [] && livroId in old(table)
      ensures ok ==> table == old(table)[livroId := ApplyAll(old(table)[livroId], Kept(kwargs))]
      ensures !ok ==> table == old(table)
    {
      if kwargs == [] {
        return false;
      }
      var stmt := BuildUpdate(livroId, kwargs);
      if stmt.None? {
        return false;
      }
      // Executing the statement: the WHERE clause matches the row whose id is
      // the last parameter, and the i-th placeholder of the SET clause binds
      // the i-th kept value to the i-th kept column.
      var rowcount := 0;
      if livroId in table {
        var row := ApplyAll(table[livroId], Kept(kwargs));
        ApplyAllKeepsId(table[livroId], Kept(kwargs));
        assert row.id == livroId;
        table := table[livroId := row];
        rowcount := 1;
      }
      ok := rowcount > 0;
    }

    /** `DELETE FROM livros WHERE id = ?`: true iff a row was removed; the counter is kept. */
    method DeleteLivro(livroId: int) returns (ok: bool)
      requires Valid()
      modifies this
      ensures Valid() && lastId == old(lastId)
      ensures ok <==> livroId in old(table)
      ensures table == old(table) - {livroId}
    {
      var rowcount := if livroId in table then 1 else 0;
      table := table - {livroId};
      ok := rowcount > 0;
    }

    /** `SELECT 1 FROM livros WHERE id = ?`: agrees with GetLivroById without reading the row. */
    function LivroExists(livroId: int): (b: bool)
      reads this
      ensures b <==> GetLivroById(livroId).Some?
    {
      livroId in table
    }
  }
}
