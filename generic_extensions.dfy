/** `User`/`Student` and `List<T : User>.getUserNameList()`, which maps every user to its name. */
module GenericExtensions {

  /**
   * `User` is abstract with an `id` and a `name`; `Student` is its one subclass and is a data
   * class, so a user is a value holding those two fields.
   */
  datatype User = Student(id: int, name: string)

  /** `getUserNameList`: `map { it.name }`. */
  function GetUserNameList(users: seq<User>): (names: seq<string>)
    ensures |names| == |users|
    ensures forall i | 0 <= i < |users| :: names[i] == users[i].name
  {
    if users == [] then [] else [users[0].name] + GetUserNameList(users[1..])
  }

  /** The mapping distributes over concatenation. */
  lemma {:induction false} GetUserNameListAppend(a: seq<User>, b: seq<User>)
    ensures GetUserNameList(a + b) == GetUserNameList(a) + GetUserNameList(b)
    decreases |a|
  {
    if a != [] {
      assert (a + b)[1..] == a[1..] + b;
      GetUserNameListAppend(a[1..], b);
    }
  }

  /** The demonstration app's list of students. */
  lemma GetUserNameListExample()
    ensures GetUserNameList([Student(1, "Kotlin"), Student(2, "Alex"), Student(3, "Mohammed")])
      == ["Kotlin", "Alex", "Mohammed"]
  {
  }
}
