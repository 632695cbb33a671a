/**
 * The `PasteRepository` interface of src/main.rs (`create`, `read`, `exists`), given
 * here by an implementation that keeps the pastes in a map. A `create` the storage
 * medium rejects is modelled by a fault that the caller passes in: the repository
 * then reports the error and keeps its pastes as they were.
 */
module Repository {
  import opened Wrappers
  import opened Utf8
  import opened Ids

  /** The kinds of `std::io::Error` a rejected write can report. */
  datatype IoError = PermissionDenied | StorageFull | InvalidName | Interrupted | OtherIo

  /** What `read` answers for `id` over the pastes `pastes`. */
  function Lookup(pastes: map<Id, Bytes>, id: Id): (r: Option<Bytes>)
    ensures r.Some? <==> id in pastes
    ensures r.Some? ==> r.value == pastes[id]
  {
    if id in pastes then Some(pastes[id]) else None
  }

  /** A write that succeeded is read back; writes to other ids are not seen. */
  lemma ReadAfterCreate(pastes: map<Id, Bytes>, id: Id, content: Bytes, other: Id)
    ensures Lookup(pastes[id := content], id) == Some(content)
    ensures other != id ==> Lookup(pastes[id := content], other) == Lookup(pastes, other)
  {
  }

  class MemoryRepository {
    var pastes: map<Id, Bytes>

    constructor()
      ensures pastes == map[]
    {
      pastes := map[];
    }

    /**
     * `create`: store `content` under `id`, replacing what was there. With a fault
     * the write is refused, the error is returned and nothing changes.
     */
    method Create(id: Id, content: Bytes, fault: Option<IoError>) returns (r: Result<(), IoError>)
      modifies this
      ensures fault.None? ==> r == Success(()) && pastes == old(pastes)[id := content]
      ensures fault.Some? ==> r == Failure(fault.value) && pastes == old(pastes)
    {
      if fault.Some? {
        r := Failure(fault.value);
      } else {
        pastes := pastes[id := content];
        r := Success(());
      }
    }

    /** `read`: the content under `id`, if any; nothing changes. */
    method Read(id: Id) returns (r: Option<Bytes>)
      ensures r == Lookup(pastes, id)
    {
      if id in pastes {
        r := Some(pastes[id]);
      } else {
        r := None;
      }
    }

    /** `exists`: whether `id` has content; nothing changes. */
    method Exists(id: Id) returns (b: bool)
      ensures b <==> id in pastes
    {
      b := id in pastes;
    }
  }
}
