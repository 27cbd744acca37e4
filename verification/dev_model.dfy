/** The widget and state types of the older (`dev/droidmate`) source tree, reduced
    to the attributes the trace, the login strategy and the report helpers read. */
module DevModel {

  /** `java.util.UUID`, by its textual form. */
  type UUID = string

  /** `ConcreteId`, by its textual form (`toString` / `stateIdFromString`). */
  type ConcreteId = string

  /** `emptyUUID`: the identifier used where a widget is absent. */
  const EmptyUUID: UUID := "00000000" + "-" + "0000" + "-" + "0000" + "-" + "0000" + "-" + "000000000000"

  /** `emptyId`: the identifier of the empty (not yet known) state, the empty
      uid and the empty configuration id joined by '_'. */
  const EmptyId: ConcreteId := EmptyUUID + "_" + EmptyUUID

  datatype Widget = Widget(
    uid: UUID,
    text: string,
    resourceId: string,
    /** an editable text field */
    isEdit: bool,
    /** `canBeActedUpon()` */
    canBeActedUpon: bool,
    /** `isVisibleOnCurrentDeviceDisplay()` */
    visibleOnDisplay: bool)

  /** A GUI state: its identifier and the identifier under which its edit
      fields are grouped. */
  datatype StateData = StateData(stateId: ConcreteId, iEditId: UUID)

  /** `StateData.emptyState()`: the cursor of a trace before the first update. */
  const EmptyState: StateData := StateData(EmptyId, EmptyUUID)
}
