/** Class lists of page elements, as far as the scripts use them: a set of
    class names that handlers add to and remove from. */
module Dom {

  type ClassList = set<string>

  /** The class that marks the current navigation link and filter button. */
  const ActiveClass: string := "active"

  /** The pair `classList.remove(name)` followed, when `on` holds, by
      `classList.add(name)`: afterwards `name` is present exactly when `on`
      holds, and no other class is touched. */
  function SetClass(classes: ClassList, name: string, on: bool): (r: ClassList)
    ensures name in r <==> on
    ensures r - {name} == classes - {name}
  {
    if on then classes + {name} else classes - {name}
  }

  /** Setting a class twice is setting it once with the later value. */
  lemma SetClassOverwrites(classes: ClassList, name: string, first: bool, second: bool)
    ensures SetClass(SetClass(classes, name, first), name, second) == SetClass(classes, name, second)
  {
  }

}
