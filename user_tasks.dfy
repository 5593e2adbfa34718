/** The user/task service: a users store of (username, password) rows and a
    tasks store of (task, deadline, user) rows, each the body of a CSV file
    without its header line. Handlers that only read are functions of the
    current rows; handlers that append are methods of `UserTaskService`. */
module UserTasks {
  import opened Text
  import opened Seqs

  datatype User = User(username: string, password: string)

  datatype Task = Task(task: string, deadline: string, user: string)

  /** The `status` field of create_user's reply: "User created" or "User already exists". */
  datatype CreateUserStatus = UserCreated | UserAlreadyExists

  /** The `status` field of user_login's reply: "Logged in" or "Invalid username or password". */
  datatype LoginStatus = LoggedIn | InvalidCredentials

  /** The `status` field of create_task's reply: "Task created". */
  datatype CreateTaskStatus = TaskCreated

  // ---------------------------------------------------------------------------
  // The users file as `csv.reader` sees it
  // ---------------------------------------------------------------------------

  const UsersHeader: seq<string> := ["username", "password"]

  function UserLine(u: User): seq<string> {
    [u.username, u.password]
  }

  /** The users file: the header line, then one line per stored user. */
  function UsersFile(users: seq<User>): (f: seq<seq<string>>)
    ensures |f| == |users| + 1 && f[0] == UsersHeader
    ensures forall i :: 0 <= i < |users| ==> f[i + 1] == UserLine(users[i])
  {
    [UsersHeader] + seq(|users|, i requires 0 <= i < |users| => UserLine(users[i]))
  }

  /** The lines a scan visits after `next(reader, None)` has consumed the first one
      (on a file with no line at all, nothing). */
  function ScannedLines(f: seq<seq<string>>): (r: seq<seq<string>>)
    ensures f != [] ==> |r| == |f| - 1 && forall i :: 0 <= i < |r| ==> r[i] == f[i + 1]
    ensures f == [] ==> r == []
  {
    if f == [] then [] else f[1..]
  }

  /** The scans of create_user and user_login visit exactly the user lines,
      in store order, and never the header. This is why the handlers below
      scan `users`, the rows after the header, directly. */
  lemma {:induction false} ScanSkipsHeader(users: seq<User>)
    ensures |ScannedLines(UsersFile(users))| == |users|
    ensures forall i :: 0 <= i < |users| ==> ScannedLines(UsersFile(users))[i] == UserLine(users[i])
    ensures UsersHeader !in ScannedLines(UsersFile(users)) || exists u :: u in users && UserLine(u) == UsersHeader
  {
    var lines := ScannedLines(UsersFile(users));
    if UsersHeader in lines {
      var i :| 0 <= i < |lines| && lines[i] == UsersHeader;
      assert users[i] in users && UserLine(users[i]) == UsersHeader;
    }
  }

  // ---------------------------------------------------------------------------
  // create_user
  // ---------------------------------------------------------------------------

  /** Some stored row carries exactly this username (no trimming, case-sensitive). */
  predicate HasUser(users: seq<User>, username: string) {
    exists i :: 0 <= i < |users| && users[i].username == username
  }

  predicate DistinctUsernames(users: seq<User>) {
    forall i, j :: 0 <= i < j < |users| ==> users[i].username != users[j].username
  }

  /** What create_user answers and what the users store holds afterwards. */
  function CreateUserOutcome(users: seq<User>, username: string, password: string)
    : (r: (CreateUserStatus, seq<User>))
    ensures r.0 == UserAlreadyExists <==> HasUser(users, username)
    ensures r.0 == UserAlreadyExists <==> |r.1| == |users|
    ensures |users| <= |r.1| <= |users| + 1 && r.1[..|users|] == users
    ensures |r.1| > |users| ==> r.1[|users|] == User(username, password)
    ensures HasUser(r.1, username)
  {
    if HasUser(users, username) then (UserAlreadyExists, users)
    else
      var r := users + [User(username, password)];
      assert r[|users|].username == username;
      (UserCreated, r)
  }

  /** create_user never introduces a second row for a username. */
  lemma CreateUserKeepsUsernamesDistinct(users: seq<User>, username: string, password: string)
    requires DistinctUsernames(users)
    ensures DistinctUsernames(CreateUserOutcome(users, username, password).1)
  {
  }

  function NamedExactly(username: string): User -> bool {
    (u: User) => u.username == username
  }

  /** The rows stored under exactly this username. */
  function UsersNamed(users: seq<User>, username: string): (r: seq<User>)
    ensures |r| > 0 <==> HasUser(users, username)
    ensures forall i :: 0 <= i < |r| ==> r[i].username == username
  {
    var r := Filter(NamedExactly(username), users);
    assert HasUser(users, username) ==> |r| > 0 by {
      if HasUser(users, username) {
        var i :| 0 <= i < |users| && users[i].username == username;
        assert NamedExactly(username)(users[i]);
      }
    }
    assert |r| > 0 ==> HasUser(users, username) by {
      if |r| > 0 {
        assert r[0] in users;
      }
    }
    r
  }

  lemma {:induction false} AtMostOneNamed(users: seq<User>, username: string)
    requires DistinctUsernames(users)
    ensures |UsersNamed(users, username)| <= 1
  {
    if users != [] {
      var rest := users[1..];
      assert DistinctUsernames(rest) by {
        forall i, j | 0 <= i < j < |rest| ensures rest[i].username != rest[j].username {
          assert rest[i] == users[i + 1] && rest[j] == users[j + 1];
        }
      }
      AtMostOneNamed(rest, username);
      assert users == [users[0]] + rest;
      FilterConcat(NamedExactly(username), [users[0]], rest);
      assert users[0].username == username ==> !HasUser(rest, username);
    }
  }

  /** Creating the same username twice: the second call reports that the user
      exists and stores nothing, and the store ends up with one row for that
      name unless it already had some. */
  lemma CreateUserTwice(users: seq<User>, username: string, password1: string, password2: string)
    ensures var (_, once) := CreateUserOutcome(users, username, password1);
            var (status2, twice) := CreateUserOutcome(once, username, password2);
            && status2 == UserAlreadyExists
            && twice == once
            && |UsersNamed(twice, username)| == if HasUser(users, username) then |UsersNamed(users, username)| else 1
  {
    var (status1, once) := CreateUserOutcome(users, username, password1);
    var (status2, twice) := CreateUserOutcome(once, username, password2);
    assert HasUser(once, username);
    assert status2 == UserAlreadyExists && twice == once;
    if status1 == UserCreated {
      assert once == users + [User(username, password1)];
      FilterSnoc(NamedExactly(username), users, User(username, password1));
      assert |UsersNamed(users, username)| == 0;
      assert |UsersNamed(once, username)| == |UsersNamed(users, username)| + 1;
    } else {
      assert once == users;
    }
  }

  /** On a store whose usernames are distinct, two creations leave exactly one row for the name. */
  lemma CreateUserTwiceLeavesOneRow(users: seq<User>, username: string, password1: string, password2: string)
    requires DistinctUsernames(users)
    ensures var once := CreateUserOutcome(users, username, password1).1;
            |UsersNamed(CreateUserOutcome(once, username, password2).1, username)| == 1
  {
    CreateUserTwice(users, username, password1, password2);
    AtMostOneNamed(users, username);
  }

  // ---------------------------------------------------------------------------
  // user_login
  // ---------------------------------------------------------------------------

  /** A row accepts the credentials when both fields agree after stripping whitespace. */
  predicate Matches(row: User, username: string, password: string) {
    Strip(row.username) == Strip(username) && Strip(row.password) == Strip(password)
  }

  function Accepting(username: string, password: string): User -> bool {
    (row: User) => Matches(row, username, password)
  }

  /** user_login: the scan over the users rows that stops at the first row accepting the credentials. */
  function UserLogin(users: seq<User>, username: string, password: string): (r: LoginStatus)
    ensures r == LoggedIn <==> exists i :: 0 <= i < |users| && Matches(users[i], username, password)
  {
    match FindFirst(Accepting(username, password), users)
    case Some(i) => assert Accepting(username, password)(users[i]); LoggedIn
    case None => InvalidCredentials
  }

  /** Whitespace around the submitted credentials does not change the answer. */
  lemma LoginIgnoresPadding(users: seq<User>, username: string, password: string,
                            pad1: string, pad2: string, pad3: string, pad4: string)
    requires AllSpace(pad1) && AllSpace(pad2) && AllSpace(pad3) && AllSpace(pad4)
    ensures UserLogin(users, pad1 + username + pad2, pad3 + password + pad4) == UserLogin(users, username, password)
  {
    StripIgnoresPadding(pad1, username, pad2);
    StripIgnoresPadding(pad3, password, pad4);
  }

  /** A user just created can log in with the same credentials. */
  lemma CreatedUserCanLogIn(users: seq<User>, username: string, password: string)
    requires !HasUser(users, username)
    ensures UserLogin(CreateUserOutcome(users, username, password).1, username, password) == LoggedIn
  {
    var after := CreateUserOutcome(users, username, password).1;
    assert Matches(after[|users|], username, password);
  }

  /** With a single stored user, a password that differs after stripping is refused. */
  lemma WrongPasswordRefused(username: string, password: string, attempt: string)
    requires Strip(password) != Strip(attempt)
    ensures UserLogin(CreateUserOutcome([], username, password).1, username, attempt) == InvalidCredentials
  {
    assert CreateUserOutcome([], username, password).1 == [User(username, password)];
  }

  /** create_user compares names exactly but user_login compares them stripped:
      a second account " alice" can be created beside "alice", and its password
      then logs in as "alice". */
  lemma TrimmedNameSlipsPastUniqueness()
    ensures var users := [User("alice", "secret")];
            var (status, after) := CreateUserOutcome(users, " alice", "other");
            && status == UserCreated
            && UserLogin(after, "alice", "other") == LoggedIn
  {
    var users := [User("alice", "secret")];
    assert !HasUser(users, " alice") by {
      assert |users[0].username| != |" alice"|;
    }
    var after := CreateUserOutcome(users, " alice", "other").1;
    assert " alice" == " " + "alice" + [];
    StripIgnoresPadding(" ", "alice", []);
    assert after[1] == User(" alice", "other");
    assert Matches(after[1], "alice", "other");
  }

  // ---------------------------------------------------------------------------
  // get_tasks
  // ---------------------------------------------------------------------------

  function OwnedBy(name: string): Task -> bool {
    (t: Task) => t.user == name
  }

  /** get_tasks: the task rows whose user field is exactly `name`, in store order. */
  function GetTasks(tasks: seq<Task>, name: string): (r: seq<Task>)
    ensures forall i :: 0 <= i < |r| ==> r[i] in tasks && r[i].user == name
    ensures forall i :: 0 <= i < |tasks| && tasks[i].user == name ==> tasks[i] in r
    ensures tasks == [] ==> r == []
  {
    if |tasks| == 0 then [] else Filter(OwnedBy(name), tasks)
  }

  /** get_tasks keeps store order: the answer for a concatenation is the
      answer for the first part followed by the answer for the second. */
  lemma GetTasksConcat(a: seq<Task>, b: seq<Task>, name: string)
    ensures GetTasks(a + b, name) == GetTasks(a, name) + GetTasks(b, name)
  {
    if a == [] {
      assert a + b == b;
    } else if b == [] {
      assert a + b == a;
    } else {
      FilterConcat(OwnedBy(name), a, b);
    }
  }

  /** After create_task, the owner's task list gains the new task at its end
      and every other user's list is unchanged. */
  lemma CreateTaskThenGetTasks(tasks: seq<Task>, task: Task, name: string)
    ensures GetTasks(tasks + [task], name) ==
      if task.user == name then GetTasks(tasks, name) + [task] else GetTasks(tasks, name)
  {
    GetTasksConcat(tasks, [task], name);
    assert GetTasks([task], name) == if task.user == name then [task] else [];
  }

  // ---------------------------------------------------------------------------
  // The stores and the handlers that append to them
  // ---------------------------------------------------------------------------

  class UserTaskService {
    var users: seq<User>
    var tasks: seq<Task>

    constructor (users: seq<User>, tasks: seq<Task>)
      ensures this.users == users && this.tasks == tasks
    {
      this.users := users;
      this.tasks := tasks;
    }

    /** create_user: scan the stored rows for the username; if none has it,
        append the new row at the end. */
    method CreateUser(username: string, password: string) returns (status: CreateUserStatus)
      modifies this
      ensures (status, users) == CreateUserOutcome(old(users), username, password)
      ensures tasks == old(tasks)
    {
      var rows := users;
      for i := 0 to |rows|
        invariant forall k :: 0 <= k < i ==> rows[k].username != username
      {
        if rows[i].username == username {
          return UserAlreadyExists;
        }
      }
      users := rows + [User(username, password)];
      status := UserCreated;
    }

    /** create_task: append the task row, whether or not its user exists. */
    method CreateTask(task: string, deadline: string, user: string) returns (status: CreateTaskStatus)
      modifies this
      ensures tasks == old(tasks) + [Task(task, deadline, user)]
      ensures |tasks| == |old(tasks)| + 1 && tasks[..|old(tasks)|] == old(tasks)
      ensures status == TaskCreated && users == old(users)
    {
      tasks := tasks + [Task(task, deadline, user)];
      status := TaskCreated;
    }
  }
}
