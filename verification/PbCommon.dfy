/** The iterator over the fields of a message type, which starts over at the end. */
module PbCommon {
  import opened PbSchema

  class FieldIter {
    const fields: seq<Field>
    var pos: nat
    var requiredIndex: nat

    ghost predicate Valid()
      reads this
    {
      && (if fields == [] then pos == 0 else pos < |fields|)
      && requiredIndex == RequiredIndex(fields, pos)
    }

    /** `pb_field_iter_begin`. */
    constructor (fields: seq<Field>)
      ensures Valid() && pos == 0 && this.fields == fields
    {
      this.fields, pos, requiredIndex := fields, 0, 0;
    }

    method Begin() returns (some: bool)
      modifies this
      ensures Valid() && pos == 0 && some == (fields != [])
    {
      pos, requiredIndex := 0, 0;
      some := fields != [];
    }

    /** `pb_field_iter_next`: false on coming round to the start. */
    method Next() returns (more: bool)
      requires Valid()
      modifies this
      ensures Valid() && pos == if old(pos) + 1 < |fields| then old(pos) + 1 else 0
      ensures more == (old(pos) + 1 < |fields|)
    {
      if fields == [] {
        return false;
      }
      if pos + 1 == |fields| {
        var _ := Begin();
        return false;
      }
      if fields[pos].rule.Required? {
        requiredIndex := requiredIndex + 1;
      }
      pos := pos + 1;
      more := true;
    }

    /** `pb_field_iter_find`: from wherever it stands, the iterator comes to the field with the tag if there is one. */
    method Find(tag: nat) returns (found: bool)
      requires Valid() && tag != 0
      modifies this
      ensures Valid()
      ensures found ==> pos < |fields| && fields[pos].tag == tag
      ensures !found ==> pos == old(pos) && forall j :: 0 <= j < |fields| ==> fields[j].tag != tag
    {
      if fields == [] {
        return false;
      }
      var start := pos;
      ghost var steps := 0;
      while true
        invariant Valid() && fields != [] && 0 <= steps < |fields|
        invariant pos == if start + steps < |fields| then start + steps else start + steps - |fields|
        invariant forall j :: 0 <= j < |fields| && Passed(j, start, steps) ==> fields[j].tag != tag
        decreases |fields| - steps
      {
        if fields[pos].tag == tag {
          return true;
        }
        var _ := Next();
        steps := steps + 1;
        if pos == start {
          return false;
        }
      }
    }

    /** `j` is one of the `steps` fields from `start` on. */
    ghost predicate Passed(j: nat, start: nat, steps: nat) {
      start <= j < start + steps || j + |fields| < start + steps
    }
  }
}
