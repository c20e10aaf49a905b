/** What the guest is told about its memory. */
module GuestView {
  import opened Spans

  /** Guest protection bits. */
  datatype Prot = Prot(read: bool, write: bool, exec: bool) {
    function Or(other: Prot): Prot {
      Prot(read || other.read, write || other.write, exec || other.exec)
    }
    /** Every permission of `other` is granted. */
    predicate Covers(other: Prot) {
      (other.read ==> read) && (other.write ==> write) && (other.exec ==> exec)
    }
  }

  /** Host page access. Guest execute permission is never asked of the host. */
  datatype Access = Access(read: bool, write: bool) {
    predicate Allows(p: Prot) {
      (p.read ==> read) && (p.write ==> write)
    }
  }

  const NO_ACCESS := Access(false, false)
  const READ_WRITE := Access(true, true)

  function ToHost(p: Prot): Access { Access(p.read, p.write) }

  /** What the host is asked for is the least access that allows what the guest may do. */
  lemma ToHostIsLeast(p: Prot, q: Access)
    ensures q.Allows(p) <==> (ToHost(p).read ==> q.read) && (ToHost(p).write ==> q.write)
  {
  }

  /** The guest's view of one committed byte: its protection, the allocation it belongs to
      and whether it has ever been writable. */
  datatype Cell = Cell(prot: Prot, epoch: nat, written: bool)

  type GuestRange = Span<Cell>
  type Extent = Span<()>
}
