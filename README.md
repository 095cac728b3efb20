# Book catalogue store and service, modelled in Dafny

This project models the core of a small library-catalogue HTTP service. The
core has two parts:

- the record store `Database` (database.py), which keeps book records
  (`titulo`, `autor`, `ano_publicacao`, `disponivel`) in a single SQLite table
  `livros`;
- the request handlers of api_fast.py, which decide NotFound, BadRequest or
  success from the store's answers.

SQLite is modelled as an abstract table. `Store.Database` is a class with two
fields:

- `table: map<int, Livro>`, the rows by id;
- `lastId`, the counter that `AUTOINCREMENT` keeps. It holds the largest id
  ever issued.

Its methods change these fields in place, as the SQL statements do. The
read-only queries are functions on that state.

`update_livro` is modelled as the source writes it. `Store.BuildUpdate` is the
loop that filters keyword arguments against the allow-list and builds `fields`
and `values` side by side. It then assembles
`UPDATE livros SET <fields joined by ", "> WHERE id = ?` with the id appended to
the values. The effect on the table is given by `Store.ApplyAll`: the
assignments of the SET clause, applied to the matching row.

Keyword arguments are a sequence of `(key, value)` pairs in argument order.
In the source they are a `**kwargs` dict, so no key is given twice and the SET
clause never names a column twice. The sequence generalises this to repeated
keys. For those, the model keeps the rightmost assignment, as SQLite does;
this rule matters only for the generalisation.

The handlers are methods that take the store as a parameter; in the source it
is the module-level `db`. They return `Outcome<T> = Ok(value) | NotFound |
BadRequest` in place of raising `HTTPException`. The bounds that `LivroCreate`
and `LivroUpdate` place on fields (title 1..200 characters, author 1..100,
year 1000..2100) are the predicates `ValidCreate` and `ValidUpdate`. The
handlers take them as preconditions, because the web framework rejects a body
that breaks them before any handler runs. The handlers also keep the invariant
`AllInBounds`: every stored record stays within those bounds.

Files: `wrappers.dfy` (Option), `store.dfy` (database.py), `service.dfy`
(api_fast.py).

An update with an empty body on an absent id is NotFound: the existence check
`livro_exists` (api_fast.py:84) runs before the `if not update_data` check
(api_fast.py:93).

## Model

| member | source | states |
|---|---|---|
| `Store.KeptMembers` | database.py:179-182 | after filtering, an argument is present iff it was passed and its key is one of `titulo`, `autor`, `ano_publicacao`, `disponivel`; other keys are dropped silently |
| `Store.KeptAppend` | database.py:179-182 | the filter keeps the arguments' order: filtering a concatenation is concatenating the filtered parts |
| `Store.KeptAllAllowed` | database.py:179-182 | when every key is allowed, the filter drops nothing |
| `Store.Supplied` | database.py:188 | the value the update stores for a column is one of the arguments passed for that column |
| `Store.SuppliedPresent` | database.py:188 | a value is supplied for a column iff some argument names that column |
| `Store.SuppliedAppend` | database.py:188 | for argument lists with a repeated key (a generalisation: a `**kwargs` dict has distinct keys), the rightmost assignment wins |
| `Store.SuppliedKept` | database.py:179-188 | the allow-list filter never changes what is stored for an allowed column |
| `Store.ApplyAllKeepsId` | database.py:188 | no SET assignment changes the row's id |
| `Store.ApplyAllColumns` | database.py:188-194 | the updated row has, in each column, the value supplied for it, or its old value when none was supplied; the id is kept |
| `Store.UpdateColumns` | database.py:177-194 | for any well-typed keyword arguments, the update changes exactly the allowed columns that were supplied, each to the value supplied for it; keys outside the allow-list have no effect; the id is kept |
| `Store.Fields` | database.py:181 | `fields[i]` is `"<key i> = ?"` for the i-th kept argument, one entry per kept argument |
| `Store.Values` | database.py:182 | `values[i]` is the value of the i-th kept argument, one per kept argument |
| `Store.JoinCount` | database.py:188 | joining parts with a separator free of `?` gives as many `?` as there are parts, when each part holds one |
| `Store.AssignmentPlaceholder` | database.py:181 | each `key = ?` holds exactly one placeholder |
| `Store.QueryLiterals` | database.py:188 | the fixed text of the query holds no placeholder except the one in `WHERE id = ?` |
| `Store.PlaceholderCount` | database.py:187-188 | the built query has exactly one `?` per kept field plus one for the id |
| `Store.BuildUpdate` | database.py:177-188 | no statement iff no argument survives the allow-list; otherwise the SQL is `UPDATE livros SET <fields> WHERE id = ?`, the parameters are the kept values in argument order followed by the id, and the number of parameters equals the number of `?` |
| `Store.RowsBetweenContents` | database.py:157-162 | the table scan yields exactly the stored rows in the id range, each under its own id, in strictly ascending id order |
| `Store.RowsBetweenLength` | database.py:157-162 | the scan has one element per stored id in the range |
| `Store.Database.constructor` | database.py:121-123 | a freshly initialised database has an empty table and has issued no id |
| `Store.Database.CreateLivro` | database.py:146-155 | the new id is one past the largest ever issued, so it is absent from the table and larger than every earlier id; the table gains exactly that row with the given fields; `disponivel` defaults to true |
| `Store.Database.GetAllLivros` | database.py:157-162 | every stored record appears, nothing else appears, no record appears twice, and the length equals the number of rows |
| `Store.Database.GetLivroById` | database.py:164-170 | Some iff a row with that id exists, and then it is that row, carrying that id; None otherwise |
| `Store.Database.UpdateLivro` | database.py:172-194 | true iff some argument survives the allow-list and the row exists; on true only that row changes, to the SET assignments applied to it; on false (no arguments, none allowed, or no such row) the table is unchanged; the id counter never changes |
| `Store.Database.DeleteLivro` | database.py:196-202 | true iff the row existed; afterwards it is absent and every other row is unchanged; the id counter is kept, so the id is never reused |
| `Store.Database.LivroExists` | database.py:204-209 | agrees with `GetLivroById(id) != None`; it only reads |
| `Service.PatchedInBounds` | api_fast.py:24-28 | a record within the bounds, patched with an update body within the bounds, stays within them |
| `Service.StoreInBounds` | api_fast.py:18-21 | storing a record within the bounds keeps every stored record within them |
| `Service.RemoveInBounds` | api_fast.py:112-131 | removing a record keeps the rest within the bounds |
| `Service.SentSupplied` | api_fast.py:91 | an unsent field supplies nothing; a sent field supplies its value for its own key only |
| `Service.SentKept` | api_fast.py:91 | a sent field is a well-typed argument that the allow-list keeps |
| `Service.ArgsAppend` | api_fast.py:91 | concatenating well-typed, allowed arguments keeps them so |
| `Service.UpdateDataArgs` | api_fast.py:91-93 | the dumped body is empty iff no field was sent; its arguments are well typed; the store's allow-list keeps all of them |
| `Service.SuppliedUpdateData` | api_fast.py:91 | for each column, the dumped body supplies exactly what the client sent for that field, and nothing for any other key |
| `Service.UpdateDataPatches` | api_fast.py:91-110 | the store's update applied with the dumped body replaces exactly the sent fields of the record |
| `Service.PatchStep` | api_fast.py:91-110 | for an existing record and an update body within the bounds, the store's update writes exactly the patched record, and a table within the bounds stays within them |
| `Service.ListarLivros` | api_fast.py:50-54 | answers every stored record exactly once |
| `Service.ObterLivro` | api_fast.py:56-65 | NotFound iff the id is absent; otherwise the stored record with that id; never BadRequest |
| `Service.CriarLivro` | api_fast.py:67-78 | answers the re-read record: a fresh id larger than every earlier one and exactly the submitted fields; the table gains exactly that row; records stay within the bounds |
| `Service.AtualizarLivro` | api_fast.py:80-110 | NotFound iff the id is absent, checked before the body, so an empty body on an absent id is NotFound; BadRequest iff the id exists and no field was sent, with the table unchanged; otherwise the old record with exactly the sent fields replaced, stored under the same id; the "update returned false" branch is unreachable; records stay within the bounds |
| `Service.DeletarLivro` | api_fast.py:112-131 | Ok iff the id existed, NotFound otherwise; the "delete returned false" branch is unreachable; afterwards the id is absent and all other rows are unchanged |
| `Service.DeleteTwice` | api_fast.py:112-131 | deleting an existing record succeeds; reading it afterwards, or deleting it again, yields NotFound |
| `Service.DeleteThenCreate` | database.py:137 | an id removed by a delete is not handed out by the create that follows it |
| `Service.Scenario` | api_fast.py:67-131 | on a fresh database, creating "1984" gives id 1; marking it available changes only `disponivel`; deleting it succeeds; reading it afterwards is NotFound |

## Left out

- Connection handling (`get_connection`, `with` scopes, `commit`, `row_factory`) and the `CREATE TABLE` statement of `init_db` (database.py:125-144). These are I/O; the abstract table takes their place.
- `Database.__init__` on a file that already holds rows. The constructor models a new, empty database file only.
- The first, identical definition of `Database` (database.py:6-116). The second definition (database.py:120-209) shadows it; only that one is modelled.
- Storage failures: I/O or integrity errors raised by SQLite. They are not recovered in the source either.
- `AUTOINCREMENT` running out of ids at 2^63-1: ids are unbounded integers.
- `Store.Database.UpdateLivro`: requires every allowed key to carry a value of its column's kind (`AllWellTyped`). SQLite's type affinity for a value of the wrong kind is not modelled. The service always passes values of the right kind.
- An id outside SQLite's 64-bit INTEGER range (below -2^63 or at least 2^63) given to a lookup, update or delete (database.py:168, 191, 200, 208): the `sqlite3` binding raises OverflowError and the request ends in that exception. The model treats such an id as an absent one, so `Service.ObterLivro`, `Service.AtualizarLivro` and `Service.DeletarLivro` answer NotFound for it.
- `disponivel` is a boolean here. SQLite stores it as 0/1 and the response schema converts it back.
- `Store.Database.GetAllLivros`: the model scans rows in ascending id order. The source promises no order, so the contract states only content, uniqueness and length.
- FastAPI routing and decorators, HTTP status codes and messages, `root`, the `LivroResponse` conversion and `uvicorn.run` (api_fast.py:2-15, 30-48, 164-171). This is transport; only the outcome kind is kept.
- A request body that breaks the field bounds. The framework answers it with a validation error before any handler runs, so the handlers take valid bodies as a precondition.
- `startup_event` seeding (api_fast.py:134-162). It is startup glue that swallows exceptions and prints.
- Races between `livro_exists` and the following write. The model is sequential, so the BadRequest branches taken when the store answers false after the existence check are unreachable. They are kept in the code and proved never taken.
- A field sent as an explicit `null`: Pydantic passes it through to a NOT NULL column, and the store fails. Update bodies carry presence flags with non-null values only.
