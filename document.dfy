/**
  * The contents of a state-machine document as the engines read it: the
  * initial state's name, the state and message names, and one table per
  * state listing its outgoing transitions by name. The document classes
  * (StateMachineModel and its parts) hold these values; the engines'
  * loading and composing operations take them.
  */
module Document {
  import opened Common

  /** One transition: on `message`, go to the state named `target`. */
  datatype Change = Change(message: Name, target: Name)

  /**
    * The outgoing transitions of the state called `name`. `addAll` is the
    * current StateTableModel's AddAllMessages flag, which only its writer
    * reads; every other table carries `false`.
    */
  datatype TableDoc = TableDoc(name: Name, transitions: seq<Change>, addAll: bool)

  datatype Doc = Doc(initial: Name, stateNames: seq<Name>, messageNames: seq<Name>, tables: seq<TableDoc>)

  /** A document with no names, no tables and a null initial state. */
  const Empty := Doc(None, [], [], [])
}
