/** The persisted entities of the resource service. Every C# `string`
    property may be `null`, so each is an `Option<string>`. */
module Models {
  import opened Wrappers

  /** A todo item (`Todo` in TodoListService/Models/TodoItem.cs). */
  datatype Todo = Todo(id: int, title: Option<string>, owner: Option<string>)

  /** A row of the AuthContext table: the authentication context id that an
      operation (an HTTP method name) requires in a tenant. */
  datatype AuthContext = AuthContext(
    tenantId: Option<string>,
    authContextId: Option<string>,
    displayName: Option<string>,
    operation: Option<string>)

  /** The table's primary key is the pair (TenantId, Operation). */
  function Key(r: AuthContext): (Option<string>, Option<string>) {
    (r.tenantId, r.operation)
  }

  /** No two rows share a primary key, as the database enforces. */
  predicate KeyUnique(rows: seq<AuthContext>) {
    forall i, j :: 0 <= i < j < |rows| ==> Key(rows[i]) != Key(rows[j])
  }
}
