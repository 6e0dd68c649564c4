/**
 * The popup's view state: which tab is showing and whether the modal is
 * open. Toggling twice restores the modal flag, and opening or closing is
 * idempotent, because each reducer's postcondition fixes the new flag from
 * the old one alone; no reducer but `SetActiveTab` touches the tab.
 */
module UiSlice {
  import opened Types

  class UiState {
    var activeTab: TabId
    var isModalOpen: bool

    /** The initial state: the issues tab, with the modal open. */
    constructor ()
      ensures activeTab == IssuesFound && activeTab.Name() == "issues"
      ensures isModalOpen
    {
      activeTab := IssuesFound;
      isModalOpen := true;
    }

    /** `setActiveTab`: show the given tab; the modal stays as it is. */
    method SetActiveTab(tab: TabId)
      modifies this
      ensures activeTab == tab && isModalOpen == old(isModalOpen)
    {
      activeTab := tab;
    }

    /** `toggleModal`: flip the modal flag; the tab stays. */
    method ToggleModal()
      modifies this
      ensures isModalOpen == !old(isModalOpen) && activeTab == old(activeTab)
    {
      isModalOpen := !isModalOpen;
    }

    /** `openModal`: the modal is open afterwards, whatever it was; the tab stays. */
    method OpenModal()
      modifies this
      ensures isModalOpen && activeTab == old(activeTab)
    {
      isModalOpen := true;
    }

    /** `closeModal`: the modal is closed afterwards, whatever it was; the tab stays. */
    method CloseModal()
      modifies this
      ensures !isModalOpen && activeTab == old(activeTab)
    {
      isModalOpen := false;
    }
  }
}
