/**
 * The favourites / notification store (`useAppStore`).
 *
 * The store's state is an immutable record and every action is a pure
 * transition from one state to the next. The auto-dismiss timer that
 * `setShowDialog` schedules is modelled as a separate `Dismiss` transition
 * that may fire at any point; its delay is not modelled.
 */
module AppStore {
  import opened Wrappers
  import opened Identifiers

  /** Title and icon shown by the transient dialog. */
  datatype DialogInfo = DialogInfo(title: string, icon: string)

  /** The store's state: favourite ids in insertion order and the dialog. */
  datatype State = State(favourites: seq<int>, showDialog: bool, dialogInfo: DialogInfo)

  const HeartIcon: string := "mdi-heart"
  const HeartMinusIcon: string := "mdi-heart-minus"
  const AlertIcon: string := "mdi-alert-circle-outline"
  const AlreadyExistsTitle: string := "Pokemon already exists"
  const NotFoundTitle: string := "Can not find Pokemon"

  /** No id appears twice in `s`. */
  predicate NoDuplicates(s: seq<int>) {
    forall i, j :: 0 <= i < j < |s| ==> s[i] != s[j]
  }

  /** The favourites list of `st` holds no duplicate id. */
  predicate Valid(st: State) {
    NoDuplicates(st.favourites)
  }

  /** JavaScript truthiness of an optional string argument: present and non-empty. */
  predicate Truthy(icon: Option<string>) {
    icon.Some? && icon.value != ""
  }

  /** The state the store starts with. */
  function Initial(): (st: State)
    ensures Valid(st)
    ensures |st.favourites| == 0 && !st.showDialog
    ensures st.dialogInfo.title == "" && st.dialogInfo.icon == ""
  {
    State([], false, DialogInfo("", ""))
  }

  /**
   * Shows the dialog with `title`; the icon is replaced only by a truthy
   * `icon`, otherwise the previous icon stays.
   */
  function SetShowDialog(st: State, title: string, icon: Option<string>): (st': State)
    ensures st'.showDialog
    ensures st'.dialogInfo.title == title
    ensures Truthy(icon) ==> st'.dialogInfo.icon == icon.value
    ensures !Truthy(icon) ==> st'.dialogInfo.icon == st.dialogInfo.icon
    ensures st'.favourites == st.favourites
  {
    var icon' := if Truthy(icon) then icon.value else st.dialogInfo.icon;
    State(st.favourites, true, DialogInfo(title, icon'))
  }

  /** The timer callback scheduled by `SetShowDialog` firing. */
  function Dismiss(st: State): (st': State)
    ensures !st'.showDialog
    ensures st'.favourites == st.favourites && st'.dialogInfo == st.dialogInfo
  {
    st.(showDialog := false)
  }

  /** Appends `id` unless it is already a favourite, and reports either outcome in the dialog. */
  function AddFavourite(st: State, id: int, name: string): (st': State)
    ensures st'.showDialog
    ensures id !in st.favourites ==>
      && st'.favourites == st.favourites + [id]
      && st'.dialogInfo == DialogInfo("Added " + name, HeartIcon)
    ensures id in st.favourites ==>
      && st'.favourites == st.favourites
      && st'.dialogInfo == DialogInfo(AlreadyExistsTitle, AlertIcon)
    ensures id in st'.favourites
    ensures Valid(st) ==> Valid(st')
  {
    var index := FindIndex(st.favourites, id);
    if index == -1 then
      var st1 := st.(favourites := st.favourites + [id]);
      SetShowDialog(st1, "Added " + name, Some(HeartIcon))
    else
      SetShowDialog(st, AlreadyExistsTitle, Some(AlertIcon))
  }

  /** `s` with the element at index `i` cut out (`splice(i, 1)`). */
  function RemoveAt(s: seq<int>, i: nat): (r: seq<int>)
    requires i < |s|
    ensures |r| == |s| - 1
    ensures forall k :: 0 <= k < i ==> r[k] == s[k]
    ensures forall k :: i <= k < |r| ==> r[k] == s[k + 1]
  {
    s[..i] + s[i + 1..]
  }

  /**
   * Removes the first occurrence of `id` if it is a favourite, and reports
   * either outcome in the dialog.
   */
  function RemoveFavourite(st: State, id: int, name: string): (st': State)
    ensures st'.showDialog
    ensures id in st.favourites ==>
      var i := FindIndex(st.favourites, id);
      && st.favourites[i] == id && id !in st.favourites[..i]
      && st'.favourites == st.favourites[..i] + st.favourites[i + 1..]
      && |st'.favourites| == |st.favourites| - 1
      && multiset(st'.favourites) == multiset(st.favourites) - multiset{id}
      && st'.dialogInfo == DialogInfo("Removed " + name, HeartMinusIcon)
    ensures id !in st.favourites ==>
      && st'.favourites == st.favourites
      && st'.dialogInfo == DialogInfo(NotFoundTitle, AlertIcon)
    ensures Valid(st) ==> Valid(st') && id !in st'.favourites
  {
    var index := FindIndex(st.favourites, id);
    if index != -1 then
      var s := st.favourites;
      assert s == s[..index] + [id] + s[index + 1..];
      var st1 := st.(favourites := RemoveAt(s, index));
      SetShowDialog(st1, "Removed " + name, Some(HeartMinusIcon))
    else
      SetShowDialog(st, NotFoundTitle, Some(AlertIcon))
  }

  /** The store's actions (`addFavourite`, `removeFavourite`, `setShowDialog`) and the timer firing. */
  datatype Action =
    | Add(id: int, name: string)
    | Remove(id: int, name: string)
    | Show(title: string, icon: Option<string>)
    | TimerFires

  function Step(st: State, a: Action): State {
    match a
    case Add(id, name) => AddFavourite(st, id, name)
    case Remove(id, name) => RemoveFavourite(st, id, name)
    case Show(title, icon) => SetShowDialog(st, title, icon)
    case TimerFires => Dismiss(st)
  }

  /** The state after performing `actions` in order from `st`. */
  function Run(st: State, actions: seq<Action>): State
    decreases |actions|
  {
    if |actions| == 0 then st else Run(Step(st, actions[0]), actions[1..])
  }

  /** Any sequence of actions from a duplicate-free state keeps the favourites free of duplicates. */
  lemma {:induction false} ReachableValid(st: State, actions: seq<Action>)
    requires Valid(st)
    ensures Valid(Run(st, actions))
    decreases |actions|
  {
    if |actions| > 0 {
      ReachableValid(Step(st, actions[0]), actions[1..]);
    }
  }

  /** Corollary of `ReachableValid` for the store as created. */
  lemma InitialReachableValid(actions: seq<Action>)
    ensures Valid(Run(Initial(), actions))
  {
    ReachableValid(Initial(), actions);
  }

  /** Adding the same id twice leaves it in the favourites exactly once and reports the duplicate. */
  lemma AddTwiceKeepsOne(st: State, id: int, name: string, name2: string)
    requires Valid(st)
    ensures var st' := AddFavourite(AddFavourite(st, id, name), id, name2);
      && multiset(st'.favourites)[id] == 1
      && st'.favourites == AddFavourite(st, id, name).favourites
      && st'.dialogInfo == DialogInfo(AlreadyExistsTitle, AlertIcon)
  {
    var st' := AddFavourite(AddFavourite(st, id, name), id, name2);
    CountInNoDuplicates(st'.favourites, id);
  }

  /** In a list without duplicates a present id occurs exactly once. */
  lemma {:induction false} CountInNoDuplicates(s: seq<int>, id: int)
    requires NoDuplicates(s) && id in s
    ensures multiset(s)[id] == 1
    decreases |s|
  {
    assert s == [s[0]] + s[1..];
    if s[0] == id {
      assert id !in s[1..];
    } else {
      CountInNoDuplicates(s[1..], id);
    }
  }

  /**
   * After a fresh add, the search finds the new id at the old length (the
   * end of the list) and every earlier favourite where it was before.
   */
  lemma AddedAtEnd(st: State, id: int, name: string)
    requires id !in st.favourites
    ensures FindIndex(AddFavourite(st, id, name).favourites, id) == |st.favourites|
    ensures forall x :: x in st.favourites ==>
      FindIndex(AddFavourite(st, id, name).favourites, x) == FindIndex(st.favourites, x)
  {
    FindIndexAppendAbsent(st.favourites, [id], id);
    forall x | x in st.favourites
      ensures FindIndex(st.favourites + [id], x) == FindIndex(st.favourites, x)
    {
      FindIndexAppendPresent(st.favourites, [id], x);
    }
  }

  /** Adding a fresh id and then removing it restores the original favourites. */
  lemma AddThenRemoveRestores(st: State, id: int, name: string, name2: string)
    requires id !in st.favourites
    ensures RemoveFavourite(AddFavourite(st, id, name), id, name2).favourites == st.favourites
  {
  }

  /** From a fresh store, favouriting Pikachu then unfavouriting it: the list goes `[1]` then `[]`. */
  lemma AddRemoveScenario()
    ensures var st1 := AddFavourite(Initial(), 1, "Pikachu");
      && st1 == State([1], true, DialogInfo("Added Pikachu", "mdi-heart"))
      && RemoveFavourite(st1, 1, "Pikachu") == State([], true, DialogInfo("Removed Pikachu", "mdi-heart-minus"))
  {
  }

  /** Unfavouriting an id that was never added reports it and changes nothing in the list. */
  lemma RemoveMissingScenario()
    ensures RemoveFavourite(Initial(), 99, "Missingno") == State([], true, DialogInfo(NotFoundTitle, AlertIcon))
  {
  }
}
