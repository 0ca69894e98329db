/**
 * The entity capability of the wrapper: every record kept in an entity collection carries
 * an id, the time it was added and a soft-delete flag (IEntity / Entity).
 */
module Entities {
  /** A globally unique identifier; the value 0 stands for the default (all-zero) Guid. */
  type Id = nat

  const DefaultId: Id := 0

  /** A point in time (DateTimeOffset), as an abstract tick count. */
  type Timestamp = int

  /**
   * A stored document. `body` stands for the fields the concrete entity type adds
   * on top of the three metadata fields; the wrapper never looks inside it.
   */
  datatype Entity = Entity(id: Id, added: Timestamp, deleted: bool, body: string)

  /**
   * A caller's in-memory entity object. Add and Replace assign its fields in place,
   * so it is a class; `Value` is the document the driver would serialize from it.
   */
  class EntityObject {
    var id: Id
    var added: Timestamp
    var deleted: bool
    var body: string

    /** A new object has the default id, the default timestamp and is not deleted. */
    constructor (body: string)
      ensures id == DefaultId && added == 0 && !deleted && this.body == body
    {
      id := DefaultId;
      added := 0;
      deleted := false;
      this.body := body;
    }

    function Value(): (e: Entity)
      reads this
      ensures e.id == id && e.added == added && e.deleted == deleted && e.body == body
    {
      Entity(id, added, deleted, body)
    }
  }
}
