/** The entity model: BaseEntity, AuditableEntity and User, with the two audit stamps the repository applies. */
module Domain {
  import opened Wrappers

  /** A globally unique identifier (System.Guid). Only equality matters. */
  datatype Guid = Guid(bits: nat)

  /** A point in time (System.DateTime), as a tick count. */
  datatype DateTime = DateTime(ticks: int)

  /** The four properties AuditableEntity adds to BaseEntity. */
  datatype AuditFields = AuditFields(
    createdBy: Guid,
    created: DateTime,
    lastModifiedBy: Option<Guid>,
    lastModified: Option<DateTime>)

  /**
   * An entity: BaseEntity's primary key `id`, the audit fields when the entity's runtime
   * type derives from AuditableEntity (`audit.Some?`), and the rest of its data.
   */
  datatype Entity<D> = Entity(id: Guid, audit: Option<AuditFields>, data: D) {

    /** `entity is AuditableEntity`. */
    predicate IsAuditable() {
      audit.Some?
    }
  }

  /** What Insert(T) does to an auditable entity: Created is now, CreatedBy is the entity's own id. */
  function StampCreated<D>(e: Entity<D>, now: DateTime): (r: Entity<D>)
    ensures r.id == e.id && r.data == e.data && r.IsAuditable() == e.IsAuditable()
    ensures e.IsAuditable() ==>
      && r.audit.value.created == now
      && r.audit.value.createdBy == e.id
      && r.audit.value.lastModified == e.audit.value.lastModified
      && r.audit.value.lastModifiedBy == e.audit.value.lastModifiedBy
    ensures !e.IsAuditable() ==> r == e
  {
    match e.audit
    case None => e
    case Some(a) => e.(audit := Some(a.(created := now, createdBy := e.id)))
  }

  /** What Delete(IList) does to an auditable member: LastModified is now, LastModifiedBy is the entity's own id. */
  function StampModified<D>(e: Entity<D>, now: DateTime): (r: Entity<D>)
    ensures r.id == e.id && r.data == e.data && r.IsAuditable() == e.IsAuditable()
    ensures e.IsAuditable() ==>
      && r.audit.value.lastModified == Some(now)
      && r.audit.value.lastModifiedBy == Some(e.id)
      && r.audit.value.created == e.audit.value.created
      && r.audit.value.createdBy == e.audit.value.createdBy
    ensures !e.IsAuditable() ==> r == e
  {
    match e.audit
    case None => e
    case Some(a) => e.(audit := Some(a.(lastModified := Some(now), lastModifiedBy := Some(e.id))))
  }

  /** The properties User declares besides its Id. */
  datatype Person = Person(firstName: string, lastName: string)

  /** User derives from BaseEntity and not from AuditableEntity, so a user never carries audit fields. */
  type User = u: Entity<Person> | !u.IsAuditable() witness Entity(Guid(0), None, Person("", ""))
}
