/** The todo backend: one credential pair, a process-wide sequence of todo
    records, and five request handlers; four of them read or rewrite the
    store, and login only checks the credential pair.

    Request bodies are JSON objects whose fields may be missing, so every body
    field is an `Option<string>`: `None` stands for a field that is absent
    (or holds something other than a string). The route parameter `:id` is
    taken as an already-parsed integer, and `Date.now()` is the `now`
    parameter of `Create`. */
module Backend {

  datatype Option<+T> = None | Some(value: T)

  /** A stored record `{ id, text }`. The id is the creation timestamp and is
      not unique; the text is whatever the creating or updating request
      carried, including nothing at all. */
  datatype Todo = Todo(id: int, text: Option<string>)

  /** The JSON payload a handler sends back. */
  datatype Body =
    | Message(message: string)
    | TodoList(todos: seq<Todo>)
    | Record(todo: Todo)

  /** An HTTP status code with its payload. */
  datatype Response = Response(status: int, body: Body)

  /** The single account the server knows, fixed at start-up. */
  const Username: string := "Arshad"
  const Password: string := "Arshad@7"

  /** POST /api/login: case-sensitive, exact comparison of both fields with
      the stored pair; 200 on a match, 401 otherwise. */
  function Login(username: Option<string>, password: Option<string>): (r: Response)
    ensures r.status == 200 <==> username == Some(Username) && password == Some(Password)
    ensures r.status == 200 ==> r.body == Message("Login successful")
    ensures r.status != 200 ==> r == Response(401, Message("Invalid credentials"))
  {
    if username == Some(Username) && password == Some(Password) then
      Response(200, Message("Login successful"))
    else
      Response(401, Message("Invalid credentials"))
  }

  /** Exactly one pair of fields is accepted: two successful logins carried
      the same username and the same password. */
  lemma LoginAcceptsOnePair(u1: Option<string>, p1: Option<string>, u2: Option<string>, p2: Option<string>)
    requires Login(u1, p1).status == 200 && Login(u2, p2).status == 200
    ensures u1 == u2 && p1 == p2
  {
  }

  /** Comparison is case-sensitive and needs both fields: a username that
      differs only in case, or a missing password, is refused. */
  lemma LoginRefusesNearMisses(p: Option<string>)
    ensures Login(Some("arshad"), Some(Password)).status == 401
    ensures Login(Some(Username), None).status == 401
    ensures Login(None, p).status == 401
  {
    assert "arshad"[0] != Username[0];
  }

  /** Number of records in `todos` whose id is `id`. */
  function Count(todos: seq<Todo>, id: int): (c: nat)
    ensures c <= |todos|
    ensures c == 0 <==> forall t :: t in todos ==> t.id != id
  {
    if todos == [] then 0
    else
      assert forall t :: t in todos <==> t == todos[0] || t in todos[1..];
      (if todos[0].id == id then 1 else 0) + Count(todos[1..], id)
  }

  /** The update handler's `map`: every record whose id is `id` gets `text`
      (the spread `{ ...todo, text }` keeps the id and overwrites the text,
      with nothing if the body had none); every other record is kept. */
  function WithText(todos: seq<Todo>, id: int, text: Option<string>): (r: seq<Todo>)
    ensures |r| == |todos|
    ensures forall i :: 0 <= i < |todos| ==> r[i].id == todos[i].id
    ensures forall i :: 0 <= i < |todos| && todos[i].id == id ==> r[i].text == text
    ensures forall i :: 0 <= i < |todos| && todos[i].id != id ==> r[i] == todos[i]
  {
    if todos == [] then []
    else
      [if todos[0].id == id then Todo(todos[0].id, text) else todos[0]]
      + WithText(todos[1..], id, text)
  }

  /** The delete handler's `filter`: the records whose id is not `id`. */
  function WithoutId(todos: seq<Todo>, id: int): (r: seq<Todo>)
    ensures |r| <= |todos|
    ensures forall t :: t in r <==> t in todos && t.id != id
  {
    if todos == [] then []
    else
      assert forall t :: t in todos <==> t == todos[0] || t in todos[1..];
      if todos[0].id == id then WithoutId(todos[1..], id)
      else [todos[0]] + WithoutId(todos[1..], id)
  }

  // ---------------------------------------------------------------------
  // Delete

  /** Delete drops exactly the matching records: the length falls by their number. */
  lemma {:induction false} WithoutIdLength(todos: seq<Todo>, id: int)
    ensures |WithoutId(todos, id)| == |todos| - Count(todos, id)
  {
    if todos != [] {
      WithoutIdLength(todos[1..], id);
    }
  }

  /** Delete keeps each surviving record as many times as it occurred and
      drops every copy of a matching one. */
  lemma {:induction false} WithoutIdMultiset(todos: seq<Todo>, id: int)
    ensures forall t :: multiset(WithoutId(todos, id))[t] == if t.id == id then 0 else multiset(todos)[t]
  {
    if todos != [] {
      WithoutIdMultiset(todos[1..], id);
      assert todos == [todos[0]] + todos[1..];
      assert multiset(todos) == multiset{todos[0]} + multiset(todos[1..]);
    }
  }

  /** Delete works piecewise, so the survivors keep their relative order. */
  lemma {:induction false} WithoutIdConcat(a: seq<Todo>, b: seq<Todo>, id: int)
    ensures WithoutId(a + b, id) == WithoutId(a, id) + WithoutId(b, id)
  {
    if a == [] {
      assert a + b == b;
    } else {
      assert (a + b)[0] == a[0];
      assert (a + b)[1..] == a[1..] + b;
      WithoutIdConcat(a[1..], b, id);
    }
  }

  /** Delete leaves the store as it was exactly when no record has the id. */
  lemma {:induction false} WithoutIdUnchanged(todos: seq<Todo>, id: int)
    ensures WithoutId(todos, id) == todos <==> Count(todos, id) == 0
  {
    WithoutIdLength(todos, id);
    if todos != [] && Count(todos, id) == 0 {
      assert todos[0] in todos;
      assert Count(todos[1..], id) == 0;
      WithoutIdUnchanged(todos[1..], id);
    }
  }

  /** Deleting the same id twice gives the store a single delete gives. */
  lemma WithoutIdIdempotent(todos: seq<Todo>, id: int)
    ensures WithoutId(WithoutId(todos, id), id) == WithoutId(todos, id)
  {
    WithoutIdUnchanged(WithoutId(todos, id), id);
  }

  // ---------------------------------------------------------------------
  // Update

  /** Update leaves the store as it was exactly when every matching record
      already holds the new text; in particular when no record matches. */
  lemma WithTextUnchanged(todos: seq<Todo>, id: int, text: Option<string>)
    ensures WithText(todos, id, text) == todos
        <==> forall i :: 0 <= i < |todos| && todos[i].id == id ==> todos[i].text == text
    ensures Count(todos, id) == 0 ==> WithText(todos, id, text) == todos
  {
    var r := WithText(todos, id, text);
    if forall i :: 0 <= i < |todos| && todos[i].id == id ==> todos[i].text == text {
      assert forall i :: 0 <= i < |todos| ==> r[i] == todos[i];
    }
    if Count(todos, id) == 0 {
      assert forall i :: 0 <= i < |todos| ==> todos[i] in todos;
    }
  }

  /** Of two updates of the same id, the later text wins. */
  lemma WithTextLastWins(todos: seq<Todo>, id: int, first: Option<string>, second: Option<string>)
    ensures WithText(WithText(todos, id, first), id, second) == WithText(todos, id, second)
  {
    var once, twice := WithText(todos, id, second), WithText(WithText(todos, id, first), id, second);
    assert forall i :: 0 <= i < |todos| ==> twice[i] == once[i];
  }

  /** Updating twice with the same text gives the store a single update gives. */
  lemma WithTextIdempotent(todos: seq<Todo>, id: int, text: Option<string>)
    ensures WithText(WithText(todos, id, text), id, text) == WithText(todos, id, text)
  {
    WithTextLastWins(todos, id, text, text);
  }

  /** Update works piecewise over the store. */
  lemma {:induction false} WithTextConcat(a: seq<Todo>, b: seq<Todo>, id: int, text: Option<string>)
    ensures WithText(a + b, id, text) == WithText(a, id, text) + WithText(b, id, text)
  {
    if a == [] {
      assert a + b == b;
    } else {
      assert (a + b)[0] == a[0];
      assert (a + b)[1..] == a[1..] + b;
      WithTextConcat(a[1..], b, id, text);
    }
  }

  // ---------------------------------------------------------------------
  // Handlers issued one after another

  /** Deleting an id makes an earlier update of that id invisible. */
  lemma {:induction false} DeleteAfterUpdate(todos: seq<Todo>, id: int, text: Option<string>)
    ensures WithoutId(WithText(todos, id, text), id) == WithoutId(todos, id)
  {
    if todos != [] {
      DeleteAfterUpdate(todos[1..], id, text);
    }
  }

  /** An update and a delete commute, for any two ids; when the ids are the
      same both orders give the delete alone. */
  lemma {:induction false} UpdateDeleteCommute(todos: seq<Todo>, updated: int, deleted: int, text: Option<string>)
    ensures WithoutId(WithText(todos, updated, text), deleted)
         == WithText(WithoutId(todos, deleted), updated, text)
  {
    if todos != [] {
      UpdateDeleteCommute(todos[1..], updated, deleted, text);
    }
  }

  /** A record created with timestamp `now` is removed by a delete of `now`,
      together with every older record that has the same timestamp. */
  lemma CreateThenDelete(todos: seq<Todo>, now: int, text: Option<string>)
    ensures WithoutId(todos + [Todo(now, text)], now) == WithoutId(todos, now)
  {
    WithoutIdConcat(todos, [Todo(now, text)], now);
  }

  /** An update of `now` reaches the record just created at `now`, and every
      older record with the same timestamp. */
  lemma CreateThenUpdate(todos: seq<Todo>, now: int, text: Option<string>, edited: Option<string>)
    ensures WithText(todos + [Todo(now, text)], now, edited)
         == WithText(todos, now, edited) + [Todo(now, edited)]
  {
    WithTextConcat(todos, [Todo(now, text)], now, edited);
  }

  // ---------------------------------------------------------------------
  // The store and its handlers

  /** The server's mutable state: the `todos` array the handlers share. */
  class TodoStore {
    var todos: seq<Todo>

    /** The server starts with no records. */
    constructor ()
      ensures todos == []
    {
      todos := [];
    }

    /** GET /api/todos: the whole store, in store order; nothing changes. */
    method List() returns (r: Response)
      ensures r.status == 200 && r.body.TodoList? && r.body.todos == todos
    {
      r := Response(200, TodoList(todos));
    }

    /** POST /api/todos: push `{ id: now, text }` and send it back. */
    method Create(text: Option<string>, now: int) returns (r: Response)
      modifies this`todos
      ensures todos == old(todos) + [Todo(now, text)]
      ensures |todos| == |old(todos)| + 1 && todos[..|old(todos)|] == old(todos)
      ensures r == Response(200, Record(todos[|todos| - 1]))
    {
      var created := Todo(now, text);
      todos := todos + [created];
      r := Response(200, Record(created));
    }

    /** PUT /api/todos/:id: rewrite the text of every record with that id;
        the reply is the same whether or not any record matched. */
    method Update(id: int, text: Option<string>) returns (r: Response)
      modifies this`todos
      ensures todos == WithText(old(todos), id, text)
      ensures Count(old(todos), id) == 0 ==> todos == old(todos)
      ensures r == Response(200, Message("Todo updated"))
    {
      WithTextUnchanged(todos, id, text);
      todos := WithText(todos, id, text);
      r := Response(200, Message("Todo updated"));
    }

    /** DELETE /api/todos/:id: keep only the records with another id; the
        reply is the same whether or not any record matched. */
    method Delete(id: int) returns (r: Response)
      modifies this`todos
      ensures todos == WithoutId(old(todos), id)
      ensures forall t :: t in todos ==> t.id != id
      ensures r == Response(200, Message("Todo deleted"))
    {
      todos := WithoutId(todos, id);
      r := Response(200, Message("Todo deleted"));
    }
  }

  /** One session against a fresh server: log in, add "Buy milk", list it,
      edit it to "Buy bread", list again, delete it, list once more. */
  method Session(now: int) returns (added: seq<Todo>, edited: seq<Todo>, remaining: seq<Todo>)
    ensures added == [Todo(now, Some("Buy milk"))]
    ensures edited == [Todo(now, Some("Buy bread"))]
    ensures remaining == []
  {
    var login := Login(Some("Arshad"), Some("Arshad@7"));
    assert login.status == 200;
    var store := new TodoStore();
    var created := store.Create(Some("Buy milk"), now);
    var listed := store.List();
    added := listed.body.todos;
    var _ := store.Update(created.body.todo.id, Some("Buy bread"));
    listed := store.List();
    edited := listed.body.todos;
    var _ := store.Delete(created.body.todo.id);
    listed := store.List();
    remaining := listed.body.todos;
  }
}
