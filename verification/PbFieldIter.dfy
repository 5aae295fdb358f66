// nanopb's field iterator (pb_common.c): it walks the descriptors in a circle and keeps track of the
// place of the current field in the message.

module PbFieldIters {
  import opened PbSchemas

  /** slot is the member that pData points to, offset its distance from the start of the struct. */
  class FieldIter {
    const fields: Schema
    var pos: nat
    var requiredIndex: nat
    var slot: nat
    var offset: nat

    /** Everything depends on the position only; without fields the iterator stays at the terminator. */
    ghost predicate Valid()
      reads this
    {
      if fields == [] then pos == 0 && requiredIndex == 0
      else
        && pos < |fields| && requiredIndex == RequiredBefore(fields, pos)
        && slot == SlotOf(fields, pos) && offset == OffsetOf(fields, pos)
    }

    /** `pb_field_iter_begin`; the message is empty if the first descriptor is the terminator. */
    constructor (fields: Schema)
      ensures this.fields == fields && pos == 0 && Valid()
    {
      this.fields := fields;
      pos, requiredIndex, slot, offset := 0, 0, 0, if fields == [] then 0 else fields[0].gap;
    }

    method Restart()
      modifies this
      ensures pos == 0 && Valid()
    {
      pos, requiredIndex, slot, offset := 0, 0, 0, if fields == [] then 0 else fields[0].gap;
    }

    /** `pb_field_iter_next`; false when it wraps around. */
    method Next() returns (more: bool)
      requires Valid()
      modifies this
      ensures Valid()
      ensures more <==> old(pos) + 1 < |fields|
      ensures pos == if more then old(pos) + 1 else 0
    {
      if fields == [] { return false; }
      var previous := fields[pos];
      if pos + 1 == |fields| {
        Restart();
        return false;
      }
      var current := fields[pos + 1];
      if previous.rule.Oneof? && current.rule.Oneof? && current.shared {
        pos := pos + 1;
        return true;
      }
      var previousSize := if previous.rule.Repeated? then Product(previous.size, previous.rule.max) else previous.size;
      if previous.rule.Required? {
        requiredIndex := requiredIndex + 1;
      }
      pos, slot, offset := pos + 1, slot + 1, offset + previousSize + current.gap;
      more := true;
    }

    /** `pb_field_iter_find`: once around, from wherever it stands; the terminator matches tag 0. */
    method Find(tag: nat) returns (found: bool)
      requires Valid() && Tagged(fields)
      modifies this
      ensures Valid()
      ensures fields != [] ==> found == PbSchemas.Find(fields, tag).Some?
      ensures fields != [] && found ==> pos == PbSchemas.Find(fields, tag).value
      ensures fields == [] ==> found == (tag == 0)
    {
      var start := pos;
      if fields == [] { return tag == 0; }
      if fields[pos].tag == tag {
        FindIs(fields, pos);
        return true;
      }
      var more := Next();
      while pos != start
        invariant Valid() && start < |fields| && fields[start].tag != tag
        invariant if pos > start then forall p :: start <= p < pos ==> fields[p].tag != tag
                  else forall p :: 0 <= p < pos || start <= p < |fields| ==> fields[p].tag != tag
        decreases if pos > start then |fields| + start - pos else start - pos
      {
        if fields[pos].tag == tag {
          FindIs(fields, pos);
          return true;
        }
        more := Next();
      }
      found := false;
    }
  }
}
