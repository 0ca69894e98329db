/** Extension methods on entities (IEntityExtensions). */
module EntityExtensions {
  import opened Wrappers
  import opened Entities

  /**
   * An entity reference that is null, or that points at a soft-deleted entity.
   * It reads nothing but its argument, so it cannot change the entity.
   */
  predicate IsNullOrDeleted(entity: Option<Entity>)
    ensures entity.None? ==> IsNullOrDeleted(entity)
    ensures entity.Some? && entity.value.deleted ==> IsNullOrDeleted(entity)
    ensures entity.Some? && !entity.value.deleted ==> !IsNullOrDeleted(entity)
  {
    match entity
    case None => true
    case Some(e) => e.deleted
  }
}
