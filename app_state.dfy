/** The application state held by the main component and the handlers that update
    it: selection, the delete dialog, soft deletion, restoring, adding a child or an
    ancestor, and saving an edit. Saving to the server is left out (it does not
    change this state); ids for new records come in as a parameter. */
module AppState {
  import opened FamilyTypes
  import opened Records

  /** The delete confirmation dialog: open flag, target id, target name. */
  datatype DeleteModal = DeleteModal(isOpen: bool, memberId: Option<string>, memberName: string)

  const ClosedModal: DeleteModal := DeleteModal(false, None, "")

  /** `{ ...selectedMember, ...formData }`: the form holds a whole record once it has
      been filled (from the selected record or a new one); an empty form leaves the
      selected record as it is. */
  function Merged(selected: Member, form: Option<Member>): Member
  {
    match form
    case None => selected
    case Some(f) => f
  }

  class FamilyApp {
    var members: seq<Member>
    var selectedId: Option<string>
    var detailsOpen: bool
    var editing: bool
    var compareId: Option<string>
    var aiAnalysis: string
    var aiResponse: string
    /** `None` stands for the empty form `{}`. */
    var formData: Option<Member>
    var deleteModal: DeleteModal

    /** The state right after the records are loaded. */
    constructor(loaded: seq<Member>)
      ensures members == loaded && selectedId == None && !detailsOpen && !editing
      ensures compareId == None && aiAnalysis == "" && aiResponse == ""
      ensures formData == None && deleteModal == ClosedModal
    {
      members := loaded;
      selectedId := None;
      detailsOpen := false;
      editing := false;
      compareId := None;
      aiAnalysis := "";
      aiResponse := "";
      formData := None;
      deleteModal := ClosedModal;
    }

    /** `activeMembers`, the records handed to the graph. */
    function Active(): seq<Member>
      reads this
    {
      ActiveMembers(members)
    }

    /** `deletedMembers`, the recycle bin. */
    function Deleted(): seq<Member>
      reads this
    {
      DeletedMembers(members)
    }

    /** `onSelect`: a click on the selected person opens the details; a click on
        another person selects them with details closed, edit mode off, the answers
        cleared and no comparison target. */
    method OnSelect(m: Member)
      modifies this
      ensures members == old(members) && formData == old(formData) && deleteModal == old(deleteModal)
      ensures old(selectedId) == Some(m.id) ==>
        && detailsOpen && selectedId == old(selectedId) && editing == old(editing)
        && compareId == old(compareId) && aiAnalysis == old(aiAnalysis) && aiResponse == old(aiResponse)
      ensures old(selectedId) != Some(m.id) ==>
        && selectedId == Some(m.id) && !detailsOpen && !editing
        && compareId == None && aiAnalysis == "" && aiResponse == ""
    {
      if selectedId == Some(m.id) {
        detailsOpen := true;
      } else {
        selectedId := Some(m.id);
        detailsOpen := false;
        editing := false;
        aiAnalysis := "";
        aiResponse := "";
        compareId := None;
      }
    }

    /** `onDeselect`: nothing when nothing is selected; otherwise the selection is
        cleared and the details closed. */
    method OnDeselect()
      modifies this
      ensures old(selectedId) == None ==> detailsOpen == old(detailsOpen)
      ensures old(selectedId) != None ==> !detailsOpen
      ensures selectedId == None
      ensures members == old(members) && editing == old(editing) && compareId == old(compareId)
      ensures aiAnalysis == old(aiAnalysis) && aiResponse == old(aiResponse)
      ensures formData == old(formData) && deleteModal == old(deleteModal)
    {
      if selectedId == None {
        return;
      }
      selectedId := None;
      detailsOpen := false;
    }

    /** `handleDeleteNode`: opens the dialog for a listed person, else nothing. */
    method HandleDeleteNode(id: string)
      modifies this
      ensures Find(old(members), id).Some? ==>
        deleteModal == DeleteModal(true, Some(id), Find(old(members), id).value.name)
      ensures Find(old(members), id).None? ==> deleteModal == old(deleteModal)
      ensures members == old(members) && selectedId == old(selectedId) && detailsOpen == old(detailsOpen)
      ensures editing == old(editing) && compareId == old(compareId) && formData == old(formData)
      ensures aiAnalysis == old(aiAnalysis) && aiResponse == old(aiResponse)
    {
      var member := Find(members, id);
      if member.Some? {
        deleteModal := DeleteModal(true, Some(id), member.value.name);
      }
    }

    /** `executeDelete`: with no target (null or empty id) nothing happens. Otherwise
        the target and its collected descendants are flagged deleted, the selection
        is cleared and the details closed exactly when the selected id was among
        them, and the dialog is closed. */
    method ExecuteDelete()
      modifies this
      ensures !Truthy(old(deleteModal).memberId) ==>
        members == old(members) && selectedId == old(selectedId) &&
        detailsOpen == old(detailsOpen) && deleteModal == old(deleteModal)
      ensures Truthy(old(deleteModal).memberId) ==>
        var t := old(deleteModal).memberId.value;
        var hit := Truthy(old(selectedId)) && old(selectedId).value in RemovalIds(t, old(members));
        && members == DeleteCascade(old(members), t)
        && deleteModal == ClosedModal
        && (hit ==> selectedId == None && !detailsOpen)
        && (!hit ==> selectedId == old(selectedId) && detailsOpen == old(detailsOpen))
      ensures editing == old(editing) && compareId == old(compareId) && formData == old(formData)
      ensures aiAnalysis == old(aiAnalysis) && aiResponse == old(aiResponse)
    {
      if !Truthy(deleteModal.memberId) {
        return;
      }
      var targetId := deleteModal.memberId.value;
      var idsToRemove := RemovalIds(targetId, members);
      members := DeleteCascade(members, targetId);
      if Truthy(selectedId) && selectedId.value in idsToRemove {
        selectedId := None;
        detailsOpen := false;
      }
      deleteModal := ClosedModal;
    }

    /** `handleRestore`: clears the deleted flag of the record with that id. */
    method HandleRestore(id: string)
      modifies this
      ensures members == Restore(old(members), id)
      ensures selectedId == old(selectedId) && detailsOpen == old(detailsOpen) && editing == old(editing)
      ensures compareId == old(compareId) && formData == old(formData) && deleteModal == old(deleteModal)
      ensures aiAnalysis == old(aiAnalysis) && aiResponse == old(aiResponse)
    {
      members := Restore(members, id);
    }

    /** `handleAddChildNode` with `newId` the generated id: the new child is
        appended, selected, loaded into the form and opened for editing. */
    method HandleAddChildNode(parentId: string, newId: string)
      modifies this
      ensures members == AddChild(old(members), parentId, newId)
      ensures selectedId == Some(newId) && formData == Some(NewChild(old(members), parentId, newId))
      ensures detailsOpen && editing
      ensures compareId == old(compareId) && deleteModal == old(deleteModal)
      ensures aiAnalysis == old(aiAnalysis) && aiResponse == old(aiResponse)
    {
      var newMember := NewChild(members, parentId, newId);
      members := members + [newMember];
      selectedId := Some(newId);
      formData := Some(newMember);
      detailsOpen := true;
      editing := true;
    }

    /** `handleAddParentNode` with `newId` the generated id: nothing for an unlisted
        child; otherwise the ancestor is inserted above the child, selected, loaded
        into the form and opened for editing. */
    method HandleAddParentNode(childId: string, newId: string)
      modifies this
      ensures Find(old(members), childId).None? ==>
        members == old(members) && selectedId == old(selectedId) && formData == old(formData) &&
        detailsOpen == old(detailsOpen) && editing == old(editing)
      ensures Find(old(members), childId).Some? ==>
        && members == AddParent(old(members), childId, newId)
        && selectedId == Some(newId)
        && formData == Some(NewAncestor(Find(old(members), childId).value, newId))
        && detailsOpen && editing
      ensures compareId == old(compareId) && deleteModal == old(deleteModal)
      ensures aiAnalysis == old(aiAnalysis) && aiResponse == old(aiResponse)
    {
      var child := Find(members, childId);
      if child.None? {
        return;
      }
      var newAncestor := NewAncestor(child.value, newId);
      members := AddParent(members, childId, newId);
      selectedId := Some(newId);
      formData := Some(newAncestor);
      detailsOpen := true;
      editing := true;
    }

    /** The save button of the edit form, shown only while a listed person is
        selected: the merged record replaces the record with its id and edit mode
        ends. */
    method SaveEditForm()
      requires selectedId.Some? && Find(members, selectedId.value).Some?
      modifies this
      ensures members == SaveEdit(old(members), Merged(Find(old(members), old(selectedId).value).value, old(formData)))
      ensures !editing
      ensures selectedId == old(selectedId) && detailsOpen == old(detailsOpen) && compareId == old(compareId)
      ensures formData == old(formData) && deleteModal == old(deleteModal)
      ensures aiAnalysis == old(aiAnalysis) && aiResponse == old(aiResponse)
    {
      var selected := Find(members, selectedId.value).value;
      var updated := Merged(selected, formData);
      members := SaveEdit(members, updated);
      editing := false;
    }
  }
}
