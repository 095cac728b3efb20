/**
 * The request handlers of api_fast.py over the record store: each one decides
 * NotFound, BadRequest or success from what the store answers. The shared
 * module-level `db` is passed in as a parameter.
 */
module Service {
  import opened Wrappers
  import opened Store

  /** What a handler answers, without its HTTP status code or message. */
  datatype Outcome<T> = Ok(value: T) | NotFound | BadRequest

  // ---------------------------------------------------------------------------
  // The request bodies and their field bounds
  // ---------------------------------------------------------------------------

  predicate ValidTitulo(titulo: string) {
    1 <= |titulo| <= 200
  }

  predicate ValidAutor(autor: string) {
    1 <= |autor| <= 100
  }

  predicate ValidAno(ano: int) {
    1000 <= ano <= 2100
  }

  /** The body of a create request; `disponivel` defaults to true when the client leaves it out. */
  datatype LivroCreate = LivroCreate(titulo: string, autor: string, anoPublicacao: int, disponivel: bool := true)

  predicate ValidCreate(livro: LivroCreate) {
    ValidTitulo(livro.titulo) && ValidAutor(livro.autor) && ValidAno(livro.anoPublicacao)
  }

  /** A stored record whose fields obey the request bounds. */
  predicate InBounds(l: Livro) {
    ValidTitulo(l.titulo) && ValidAutor(l.autor) && ValidAno(l.anoPublicacao)
  }

  /** Every stored record obeys the request bounds: what writing only through the handlers keeps. */
  ghost predicate AllInBounds(t: map<int, Livro>) {
    forall k :: k in t ==> InBounds(t[k])
  }

  /** The body of an update request: each field is either sent (Some) or left out (None). */
  datatype LivroUpdate = LivroUpdate(titulo: Option<string>, autor: Option<string>,
                                     anoPublicacao: Option<int>, disponivel: Option<bool>)

  /** A field that is sent obeys the same bounds as at creation. */
  predicate ValidUpdate(u: LivroUpdate) {
    && (u.titulo.Some? ==> ValidTitulo(u.titulo.value))
    && (u.autor.Some? ==> ValidAutor(u.autor.value))
    && (u.anoPublicacao.Some? ==> ValidAno(u.anoPublicacao.value))
  }

  predicate NoFields(u: LivroUpdate) {
    u.titulo.None? && u.autor.None? && u.anoPublicacao.None? && u.disponivel.None?
  }

  /** The record a partial update should produce: each sent field replaced, every other field kept. */
  function Patched(l: Livro, u: LivroUpdate): Livro {
    Livro(l.id, u.titulo.GetOr(l.titulo), u.autor.GetOr(l.autor),
          u.anoPublicacao.GetOr(l.anoPublicacao), u.disponivel.GetOr(l.disponivel))
  }

  /** Storing an in-bounds record keeps the whole table in bounds. */
  lemma StoreInBounds(t: map<int, Livro>, k: int, l: Livro)
    requires AllInBounds(t) && InBounds(l)
    ensures AllInBounds(t[k := l])
  {
  }

  /** Removing a record keeps the rest of the table in bounds. */
  lemma RemoveInBounds(t: map<int, Livro>, k: int)
    requires AllInBounds(t)
    ensures AllInBounds(t - {k})
  {
  }

  /** Patching an in-bounds record with a valid update body keeps it in bounds. */
  lemma PatchedInBounds(l: Livro, u: LivroUpdate)
    requires InBounds(l) && ValidUpdate(u)
    ensures InBounds(Patched(l, u))
  {
  }

  /** A sent field as the value passed to the store. */
  function TextValue(field: Option<string>): Option<Value> {
    if field.Some? then Some(Text(field.value)) else None
  }

  function IntegerValue(field: Option<int>): Option<Value> {
    if field.Some? then Some(Integer(field.value)) else None
  }

  function BooleanValue(field: Option<bool>): Option<Value> {
    if field.Some? then Some(Boolean(field.value)) else None
  }

  /** The keyword argument for one field: present only when the field was sent. */
  function Sent(key: string, v: Option<Value>): Kwargs {
    if v.Some? then [(key, v.value)] else []
  }

  lemma SentSupplied(key: string, v: Option<Value>, k: string)
    ensures Supplied(Sent(key, v), k) == if k == key then v else None
  {
    if v.Some? {
      assert Sent(key, v)[..0] == [];
    }
  }

  lemma SentKept(key: string, v: Option<Value>)
    requires Allowed(key)
    requires v.Some? ==> WellTyped((key, v.value))
    ensures Kept(Sent(key, v)) == Sent(key, v)
    ensures AllWellTyped(Sent(key, v))
  {
    if v.Some? {
      assert Sent(key, v)[..0] == [];
    }
  }

  /** Arguments that pass the filter unchanged and are well typed stay so when concatenated. */
  lemma ArgsAppend(a: Kwargs, b: Kwargs)
    requires Kept(a) == a && AllWellTyped(a)
    requires Kept(b) == b && AllWellTyped(b)
    ensures Kept(a + b) == a + b && AllWellTyped(a + b)
  {
    KeptAppend(a, b);
    assert forall i :: |a| <= i < |a + b| ==> (a + b)[i] == b[i - |a|];
  }

  /** `model_dump(exclude_unset=True)`: the sent fields as keyword arguments, in declaration order. */
  function UpdateData(u: LivroUpdate): Kwargs {
    Sent("titulo", TextValue(u.titulo)) + Sent("autor", TextValue(u.autor))
    + Sent("ano_publicacao", IntegerValue(u.anoPublicacao)) + Sent("disponivel", BooleanValue(u.disponivel))
  }

  /**
   * The dumped body is empty exactly when no field was sent, and otherwise
   * consists of well-typed arguments that the store's allow-list keeps in full.
   */
  lemma UpdateDataArgs(u: LivroUpdate)
    ensures UpdateData(u) == [] <==> NoFields(u)
    ensures AllWellTyped(UpdateData(u))
    ensures Kept(UpdateData(u)) == UpdateData(u)
  {
    var t := Sent("titulo", TextValue(u.titulo));
    var a := Sent("autor", TextValue(u.autor));
    var y := Sent("ano_publicacao", IntegerValue(u.anoPublicacao));
    var d := Sent("disponivel", BooleanValue(u.disponivel));
    SentKept("titulo", TextValue(u.titulo));
    SentKept("autor", TextValue(u.autor));
    SentKept("ano_publicacao", IntegerValue(u.anoPublicacao));
    SentKept("disponivel", BooleanValue(u.disponivel));
    ArgsAppend(t, a);
    ArgsAppend(t + a, y);
    ArgsAppend(t + a + y, d);
  }

  /** What the dumped arguments supply for a column is exactly what the client sent for that field. */
  lemma SuppliedUpdateData(u: LivroUpdate, key: string)
    ensures Supplied(UpdateData(u), key)
         == if key == "titulo" then TextValue(u.titulo)
            else if key == "autor" then TextValue(u.autor)
            else if key == "ano_publicacao" then IntegerValue(u.anoPublicacao)
            else if key == "disponivel" then BooleanValue(u.disponivel)
            else None
  {
    var t := Sent("titulo", TextValue(u.titulo));
    var a := Sent("autor", TextValue(u.autor));
    var y := Sent("ano_publicacao", IntegerValue(u.anoPublicacao));
    var d := Sent("disponivel", BooleanValue(u.disponivel));
    SentSupplied("titulo", TextValue(u.titulo), key);
    SentSupplied("autor", TextValue(u.autor), key);
    SentSupplied("ano_publicacao", IntegerValue(u.anoPublicacao), key);
    SentSupplied("disponivel", BooleanValue(u.disponivel), key);
    SuppliedAppend(t, a, key);
    SuppliedAppend(t + a, y, key);
    SuppliedAppend(t + a + y, d, key);
  }

  /** Handing the sent fields to the store's update patches exactly those fields. */
  lemma UpdateDataPatches(l: Livro, u: LivroUpdate)
    ensures ApplyAll(l, Kept(UpdateData(u))) == Patched(l, u)
  {
    var r := UpdateData(u);
    UpdateDataArgs(u);
    SuppliedUpdateData(u, "titulo");
    SuppliedUpdateData(u, "autor");
    SuppliedUpdateData(u, "ano_publicacao");
    SuppliedUpdateData(u, "disponivel");
    ApplyAllColumns(l, r);
    PatchedColumns(l, u);
  }

  /**
   * One update request on an existing record: the store's update with the
   * dumped body writes the patched record, and the table stays in bounds.
   */
  lemma PatchStep(t: map<int, Livro>, livroId: int, u: LivroUpdate)
    requires livroId in t && ValidUpdate(u)
    ensures ApplyAll(t[livroId], Kept(UpdateData(u))) == Patched(t[livroId], u)
    ensures AllInBounds(t) ==> AllInBounds(t[livroId := Patched(t[livroId], u)])
  {
    UpdateDataPatches(t[livroId], u);
    if AllInBounds(t) {
      PatchedInBounds(t[livroId], u);
      StoreInBounds(t, livroId, Patched(t[livroId], u));
    }
  }

  lemma PatchedColumns(l: Livro, u: LivroUpdate)
    ensures Patched(l, u) == Livro(l.id, TextOr(TextValue(u.titulo), l.titulo), TextOr(TextValue(u.autor), l.autor),
                                   IntegerOr(IntegerValue(u.anoPublicacao), l.anoPublicacao),
                                   BooleanOr(BooleanValue(u.disponivel), l.disponivel))
  {
  }

  // ---------------------------------------------------------------------------
  // The handlers
  // ---------------------------------------------------------------------------

  /** `GET /livros`: every stored record exactly once. */
  method ListarLivros(db: Database) returns (r: seq<Livro>)
    requires db.Valid()
    ensures forall l :: l in r <==> l in db.table.Values
    ensures forall i, j :: 0 <= i < j < |r| ==> r[i] != r[j]
    ensures |r| == |db.table|
  {
    r := db.GetAllLivros();
  }

  /** `GET /livros/{id}`: NotFound for an absent id, else the stored record. */
  method ObterLivro(db: Database, livroId: int) returns (r: Outcome<Livro>)
    requires db.Valid()
    ensures r.NotFound? <==> livroId !in db.table
    ensures r.Ok? ==> r.value == db.table[livroId] && r.value.id == livroId
    ensures !r.BadRequest?
  {
    var livro := db.GetLivroById(livroId);
    if livro.None? {
      return NotFound;
    }
    return Ok(livro.value);
  }

  /** `POST /livros`: inserts the record and answers it as re-read, carrying its fresh id. */
  method CriarLivro(db: Database, livro: LivroCreate) returns (r: Livro)
    requires db.Valid()
    requires ValidCreate(livro)
    modifies db
    ensures db.Valid() && r.id == old(db.lastId) + 1 && db.lastId == r.id
    ensures r.id !in old(db.table) && forall k :: k in old(db.table) ==> k < r.id
    ensures r == Livro(r.id, livro.titulo, livro.autor, livro.anoPublicacao, livro.disponivel)
    ensures db.table == old(db.table)[r.id := r]
    ensures AllInBounds(old(db.table)) ==> AllInBounds(db.table)
  {
    ghost var t := db.table;
    var livroId := db.CreateLivro(livro.titulo, livro.autor, livro.anoPublicacao, livro.disponivel);
    if AllInBounds(t) {
      StoreInBounds(t, livroId, db.table[livroId]);
    }
    var novoLivro := db.GetLivroById(livroId);
    r := novoLivro.value;
  }

  /**
   * `PUT /livros/{id}`: the existence check comes first, so an absent id is
   * NotFound even with an empty body; an existing id with no sent field is
   * BadRequest and nothing is written; otherwise the record is patched.
   */
  method AtualizarLivro(db: Database, livroId: int, livroUpdate: LivroUpdate) returns (r: Outcome<Livro>)
    requires db.Valid()
    requires ValidUpdate(livroUpdate)
    modifies db
    ensures db.Valid() && db.lastId == old(db.lastId)
    ensures r.NotFound? <==> livroId !in old(db.table)
    ensures r.BadRequest? <==> livroId in old(db.table) && NoFields(livroUpdate)
    ensures r.Ok? ==> r.value == Patched(old(db.table)[livroId], livroUpdate)
    ensures db.table == if r.Ok? then old(db.table)[livroId := r.value] else old(db.table)
    ensures AllInBounds(old(db.table)) ==> AllInBounds(db.table)
  {
    if !db.LivroExists(livroId) {
      return NotFound;
    }
    var updateData := UpdateData(livroUpdate);
    UpdateDataArgs(livroUpdate);
    if updateData == [] {
      return BadRequest;
    }
    PatchStep(db.table, livroId, livroUpdate);
    var success := db.UpdateLivro(livroId, updateData);
    if !success {
      return BadRequest;
    }
    var livroAtualizado := db.GetLivroById(livroId);
    r := Ok(livroAtualizado.value);
  }

  /** `DELETE /livros/{id}`: NotFound for an absent id, else the row is removed. */
  method DeletarLivro(db: Database, livroId: int) returns (r: Outcome<()>)
    requires db.Valid()
    modifies db
    ensures db.Valid() && db.lastId == old(db.lastId)
    ensures r == if livroId in old(db.table) then Ok(()) else NotFound
    ensures db.table == old(db.table) - {livroId}
    ensures AllInBounds(old(db.table)) ==> AllInBounds(db.table)
  {
    if !db.LivroExists(livroId) {
      return NotFound;
    }
    if AllInBounds(db.table) {
      RemoveInBounds(db.table, livroId);
    }
    var success := db.DeleteLivro(livroId);
    if !success {
      return BadRequest;
    }
    return Ok(());
  }

  // ---------------------------------------------------------------------------
  // Request sequences
  // ---------------------------------------------------------------------------

  /** Deleting an existing record succeeds; reading it or deleting it again is then NotFound. */
  method DeleteTwice(db: Database, livroId: int) returns (first: Outcome<()>, read: Outcome<Livro>, second: Outcome<()>)
    requires db.Valid()
    requires livroId in db.table
    modifies db
    ensures first == Ok(()) && read == NotFound && second == NotFound
    ensures db.table == old(db.table) - {livroId}
  {
    first := DeletarLivro(db, livroId);
    read := ObterLivro(db, livroId);
    second := DeletarLivro(db, livroId);
  }

  /** An id freed by a delete is never handed out again by a later create. */
  method DeleteThenCreate(db: Database, livroId: int, livro: LivroCreate) returns (created: Livro)
    requires db.Valid()
    requires livroId in db.table
    requires ValidCreate(livro)
    modifies db
    ensures created.id != livroId
    ensures db.table == (old(db.table) - {livroId})[created.id := created]
  {
    var _ := DeletarLivro(db, livroId);
    created := CriarLivro(db, livro);
  }

  /**
   * A create, update and delete on a fresh database: create "1984", mark it
   * available, delete it. The first id is 1, the update keeps the
   * title, and the deleted record is gone.
   */
  method Scenario() returns (created: Livro, updated: Outcome<Livro>, deleted: Outcome<()>, after: Outcome<Livro>)
    ensures created == Livro(1, "1984", "George Orwell", 1949, false)
    ensures updated == Ok(Livro(1, "1984", "George Orwell", 1949, true))
    ensures deleted == Ok(()) && after == NotFound
  {
    var db := new Database();
    created := CriarLivro(db, LivroCreate("1984", "George Orwell", 1949, false));
    updated := AtualizarLivro(db, created.id, LivroUpdate(None, None, None, Some(true)));
    deleted := DeletarLivro(db, created.id);
    after := ObterLivro(db, created.id);
  }
}
