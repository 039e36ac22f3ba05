/** The administrator's user lists (`src/pages/ManageListPage.js`): every
    user from the server goes into the student, teacher or admin table by
    role, and a user's class names are shown in a dialog.
 */
module UserLists {
  import opened Common

  /** A user account as the user endpoint returns it. */
  datatype User = User(id: string, fullName: string, role: string, classNames: Option<seq<string>>)

  /** The user has exactly this role. */
  function HasRole(role: string): User -> bool {
    (u: User) => u.role == role
  }

  /** The three tables. */
  datatype Tables = Tables(students: seq<User>, teachers: seq<User>, admins: seq<User>)

  /** `fetchUsers` after a successful reply: one order-preserving filter per
      role. */
  function Partition(users: seq<User>): (t: Tables)
    ensures forall u :: u in t.students <==> u in users && u.role == "student"
    ensures forall u :: u in t.teachers <==> u in users && u.role == "teacher"
    ensures forall u :: u in t.admins <==> u in users && u.role == "admin"
  {
    Tables(Filter(users, HasRole("student")), Filter(users, HasRole("teacher")), Filter(users, HasRole("admin")))
  }

  /** The tables of a list of users are the tables of its first part
      followed, table by table, by those of the rest: each table keeps the
      order of the reply. */
  lemma PartitionAppend(a: seq<User>, b: seq<User>)
    ensures var t, ta, tb := Partition(a + b), Partition(a), Partition(b);
            && t.students == ta.students + tb.students
            && t.teachers == ta.teachers + tb.teachers
            && t.admins == ta.admins + tb.admins
  {
    FilterAppend(a, b, HasRole("student"));
    FilterAppend(a, b, HasRole("teacher"));
    FilterAppend(a, b, HasRole("admin"));
  }

  /** A single user lands in the table of its role, once, and in no other. */
  lemma PartitionOne(u: User)
    ensures var t := Partition([u]);
            && t.students == (if u.role == "student" then [u] else [])
            && t.teachers == (if u.role == "teacher" then [u] else [])
            && t.admins == (if u.role == "admin" then [u] else [])
  {
    assert [u][1..] == [];
  }

  /** The tables never share a user, a user with another role is in none of
      them, and a list whose users all have one of the three roles is split
      without loss or duplication. */
  lemma PartitionDisjoint(users: seq<User>, u: User)
    ensures var t := Partition(users);
            && !(u in t.students && u in t.teachers)
            && !(u in t.students && u in t.admins)
            && !(u in t.teachers && u in t.admins)
            && (u.role != "student" && u.role != "teacher" && u.role != "admin" ==>
                  u !in t.students && u !in t.teachers && u !in t.admins)
  {
  }

  /** Number of users with none of the three roles. */
  function Others(users: seq<User>): nat {
    Count(users, (u: User) => u.role != "student" && u.role != "teacher" && u.role != "admin")
  }

  /** The three tables and the users with other roles add up to all users;
      hence the tables together never hold more users than the reply. */
  lemma PartitionSizes(users: seq<User>)
    ensures var t := Partition(users);
            |t.students| + |t.teachers| + |t.admins| + Others(users) == |users|
  {
    FilterLength(users, HasRole("student"));
    FilterLength(users, HasRole("teacher"));
    FilterLength(users, HasRole("admin"));
    RoleCounts(users);
  }

  /** Counting by role, one user at a time. */
  lemma {:induction false} RoleCounts(users: seq<User>)
    ensures Count(users, HasRole("student")) + Count(users, HasRole("teacher"))
            + Count(users, HasRole("admin")) + Others(users) == |users|
    decreases |users|
  {
    if |users| > 0 {
      RoleCounts(users[1..]);
    }
  }

  /** The tables hold at most as many users as the reply. */
  lemma PartitionBounded(users: seq<User>)
    ensures var t := Partition(users);
            |t.students| + |t.teachers| + |t.admins| <= |users|
  {
    PartitionSizes(users);
  }

  /** The page's lists and error message. */
  datatype ListPage = ListPage(tables: Tables, error: string)

  /** A failed request keeps the tables and sets the error message; a
      successful one replaces the tables. */
  function UsersLoaded(p: ListPage, reply: Option<seq<User>>): (q: ListPage)
    ensures reply.Some? ==> q.tables == Partition(reply.value) && q.error == p.error
    ensures reply.None? ==> q.tables == p.tables && q.error != ""
  {
    match reply
    case Some(users) => ListPage(Partition(users), p.error)
    case None => ListPage(p.tables, "ไม่สามารถโหลดข้อมูลผู้ใช้จากเซิร์ฟเวอร์ได้")
  }

  /** `user.classNames || []`: the dialog lists the user's classes, and is
      empty exactly for a user without class names or with none. */
  function ClassesOf(u: User): (names: seq<string>)
    ensures names == [] <==> u.classNames.None? || u.classNames.value == []
    ensures forall n :: n in names <==> u.classNames.Some? && n in u.classNames.value
    ensures u.classNames.Some? ==> names == u.classNames.value
  {
    u.classNames.GetOr([])
  }
}
