/** `frontend/src/routes/toDo.tsx`: the to-do page. Its state is the list of
    to-dos, the create button's `disabled` attribute, the create modal's
    visibility, whether the modal's button has its click handler, and the
    `<li>` entries of the list; server responses arrive as method inputs and
    what the page does outwards (requests, logout, showing and hiding) is
    recorded, in order, in `effects`. */
module ToDoRoute {
  import opened Wrappers
  import Snapshot

  /** A to-do as this page holds it. */
  datatype Item = Item(title: string, deadline: string)

  /** The fields of a server response the page reads. `sessionId` is truthy
      when non-empty; `dues` is `None` when absent. */
  datatype Response = Response(success: bool, sessionId: string, dues: Option<seq<Item>>)

  /** The requests the page sends, with their bodies. */
  datatype Request =
    | Fetch(sessionId: string)                                                  // GET toDos/{sessionId}
    | Create(sessionId: string, title: string, deadline: string)                // POST toDos/
    | Change(sessionId: string, title: string, newTitle: string, newDeadline: string) // PUT toDos/
    | Remove(sessionId: string, title: string)                                  // DELETE toDos/

  /** What the page does outside its own state. */
  datatype Effect =
    | DisableButton
    | ReadInputs
    | Send(request: Request)
    | WrongSessionHandled
    | HideModal
    | EnableButton

  /** An `<li><h3 id=deadline>title</h3></li>` of the list. */
  datatype ListItem = ListItem(text: string, id: string)

  /** `if (!content.success && content.sessionId) handleWrongSession()`:
      the wrong-session handler runs exactly for a failed response that
      carries a session id. */
  function Reaction(content: Response): (r: seq<Effect>)
    ensures WrongSessionHandled in r <==> !content.success && content.sessionId != ""
    ensures forall e :: e in r ==> e == WrongSessionHandled
    ensures |r| <= 1
  {
    if !content.success && content.sessionId != "" then [WrongSessionHandled] else []
  }

  class Page {
    const sessionId: string
    var toDos: seq<Item>
    var buttonDisabled: bool
    var modalShown: bool
    var createArmed: bool
    var listItems: seq<ListItem>
    var effects: seq<Effect>

    /** The page as first rendered for the session `hasSession()` gave. */
    constructor (sessionId: string)
      ensures this.sessionId == sessionId
      ensures toDos == [Item("", "")] && listItems == [] && effects == []
      ensures !buttonDisabled && !modalShown && !createArmed
    {
      this.sessionId := sessionId;
      toDos := [Item("", "")];
      buttonDisabled, modalShown, createArmed := false, false, false;
      listItems := [];
      effects := [];
    }

    /** `handleRetrieve` once the GET has answered `content`: the wrong-session
        rule, then the snapshot gate on `setToDos`. */
    method HandleRetrieve(content: Response) returns (replaced: bool)
      modifies this`toDos, this`effects
      ensures effects == old(effects) + [Send(Fetch(sessionId))] + Reaction(content)
      ensures replaced == Snapshot.Replaces(old(toDos), content.dues)
      ensures toDos == Snapshot.Apply(old(toDos), content.dues)
    {
      effects := effects + [Send(Fetch(sessionId))] + Reaction(content);
      replaced := content.dues.Some? && content.dues.value != toDos;
      if replaced {
        toDos := content.dues.value;
      }
    }

    /** `handleCreate` ("Add To Do"): when the modal and its button exist,
        shows the modal and gives the button its click handler. */
    method HandleCreate(elementsFound: bool)
      modifies this`modalShown, this`createArmed
      ensures modalShown == (old(modalShown) || elementsFound)
      ensures createArmed == (old(createArmed) || elementsFound)
    {
      if !elementsFound {
        return;
      }
      modalShown := true;
      createArmed := true;
    }

    /** A click on the modal's "Create To Do" button with the inputs holding
        `title` and `deadline` (an absent value reads as ""). A disabled
        button, or one without a handler, does nothing. Otherwise the button
        is disabled before the inputs are read; an empty field ends the
        handler there, leaving the button disabled. A full submit posts
        `{ sessionId, title, deadline }`, hides the modal, retrieves, and
        re-enables the button. */
    method SubmitCreate(title: string, deadline: string, created: Response, retrieved: Response)
      modifies this`toDos, this`effects, this`buttonDisabled, this`modalShown
      ensures !old(createArmed) || old(buttonDisabled) ==>
        effects == old(effects) && toDos == old(toDos)
        && buttonDisabled == old(buttonDisabled) && modalShown == old(modalShown)
      ensures old(createArmed) && !old(buttonDisabled) && (title == "" || deadline == "") ==>
        effects == old(effects) + [DisableButton, ReadInputs] && toDos == old(toDos)
        && buttonDisabled && modalShown == old(modalShown)
      ensures old(createArmed) && !old(buttonDisabled) && title != "" && deadline != "" ==>
        effects == old(effects) + [DisableButton, ReadInputs, Send(Create(sessionId, title, deadline))]
                     + Reaction(created) + [HideModal, Send(Fetch(sessionId))] + Reaction(retrieved)
                     + [EnableButton]
        && toDos == Snapshot.Apply(old(toDos), retrieved.dues)
        && !buttonDisabled && !modalShown
    {
      if !createArmed || buttonDisabled {
        return;
      }
      buttonDisabled := true;
      effects := effects + [DisableButton, ReadInputs];
      if title == "" || deadline == "" {
        return;
      }
      effects := effects + [Send(Create(sessionId, title, deadline))] + Reaction(created);
      modalShown := false;
      effects := effects + [HideModal];
      var _ := HandleRetrieve(retrieved);
      buttonDisabled := false;
      effects := effects + [EnableButton];
    }

    /** `handleUpdate` on a double-clicked entry, with the two answers given
        to the prompts: nothing is sent unless both answers and the entry's
        text and id are non-empty; the to-do is named by its shown title. */
    method HandleUpdate(target: ListItem, newTitle: string, newDeadline: string, updated: Response, retrieved: Response)
      modifies this`toDos, this`effects
      ensures newTitle == "" || newDeadline == "" || target.text == "" || target.id == "" ==>
        effects == old(effects) && toDos == old(toDos)
      ensures newTitle != "" && newDeadline != "" && target.text != "" && target.id != "" ==>
        effects == old(effects) + [Send(Change(sessionId, target.text, newTitle, newDeadline))]
                     + Reaction(updated) + [Send(Fetch(sessionId))] + Reaction(retrieved)
        && toDos == Snapshot.Apply(old(toDos), retrieved.dues)
    {
      if newTitle == "" || newDeadline == "" || target.text == "" || target.id == "" {
        return;
      }
      effects := effects + [Send(Change(sessionId, target.text, newTitle, newDeadline))] + Reaction(updated);
      var _ := HandleRetrieve(retrieved);
    }

    /** `handleDelete` on an aux-clicked entry: nothing is sent unless its
        text is non-empty; the to-do is named by its shown title. */
    method HandleDelete(target: ListItem, deleted: Response, retrieved: Response)
      modifies this`toDos, this`effects
      ensures target.text == "" ==> effects == old(effects) && toDos == old(toDos)
      ensures target.text != "" ==>
        effects == old(effects) + [Send(Remove(sessionId, target.text))]
                     + Reaction(deleted) + [Send(Fetch(sessionId))] + Reaction(retrieved)
        && toDos == Snapshot.Apply(old(toDos), retrieved.dues)
    {
      if target.text == "" {
        return;
      }
      effects := effects + [Send(Remove(sessionId, target.text))] + Reaction(deleted);
      var _ := HandleRetrieve(retrieved);
    }

    /** `loadToDos`: when the list element exists, it is cleared and gets one
        entry per to-do, in order, showing the title with the deadline as id. */
    method LoadToDos(listFound: bool)
      modifies this`listItems
      ensures !listFound ==> listItems == old(listItems)
      ensures listFound ==> |listItems| == |toDos|
      ensures listFound ==> forall i :: 0 <= i < |toDos| ==>
        listItems[i] == ListItem(toDos[i].title, toDos[i].deadline)
    {
      if !listFound {
        return;
      }
      listItems := [];
      for k := 0 to |toDos|
        invariant |listItems| == k
        invariant forall i :: 0 <= i < k ==> listItems[i] == ListItem(toDos[i].title, toDos[i].deadline)
      {
        listItems := listItems + [ListItem(toDos[k].title, toDos[k].deadline)];
      }
    }
  }

  /** A submit with an empty field locks the create button: the next click,
      whatever the inputs, sends nothing and changes nothing. */
  method EmptyFieldLocksCreate(page: Page, title: string, deadline: string,
                               nextTitle: string, nextDeadline: string, answer: Response)
    requires page.createArmed && !page.buttonDisabled
    requires title == "" || deadline == ""
    modifies page
    ensures page.buttonDisabled
    ensures page.effects == old(page.effects) + [DisableButton, ReadInputs]
    ensures page.toDos == old(page.toDos)
  {
    page.SubmitCreate(title, deadline, answer, answer);
    page.SubmitCreate(nextTitle, nextDeadline, answer, answer);
  }
}
