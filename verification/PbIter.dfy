/** The wrapping field iterator (pb_common.c). The terminating entry of the C array is the end
    of the sequence. */
module PbIter {
  import opened PbMessage

  /** How many of the first `n` fields are required. */
  function RequiredBefore(fields: seq<Field>, n: nat): (r: nat)
    requires n <= |fields|
    ensures r <= n
  {
    if n == 0 then 0 else RequiredBefore(fields, n - 1) + if fields[n - 1].htype.Required? then 1 else 0
  }

  lemma {:induction false} RequiredGrows(fields: seq<Field>, m: nat, n: nat)
    requires m <= n <= |fields|
    ensures RequiredBefore(fields, m) <= RequiredBefore(fields, n)
    ensures m < n && fields[m].htype.Required? ==> RequiredBefore(fields, m) < RequiredBefore(fields, n)
  {
    if m < n {
      RequiredGrows(fields, m, n - 1);
    }
  }

  class FieldIter {
    const d: Desc
    var pos: nat
    var requiredIndex: nat

    predicate Valid()
      reads this
    {
      (pos < |d.fields| || (pos == 0 && d.fields == [])) && requiredIndex == RequiredBefore(d.fields, pos)
    }

    /** pb_field_iter_begin */
    constructor (desc: Desc)
      ensures Valid() && d == desc && pos == 0
    {
      d, pos, requiredIndex := desc, 0, 0;
    }

    /** pb_field_iter_next: false when it wrapped back to the beginning. */
    method Next() returns (more: bool)
      requires Valid()
      modifies this
      ensures Valid()
      ensures more == (old(pos) + 1 < |d.fields|)
      ensures pos == if more then old(pos) + 1 else 0
    {
      if d.fields == [] {
        return false;
      }
      var prev := d.fields[pos];
      pos := pos + 1;
      if pos == |d.fields| {
        pos, requiredIndex := 0, 0;
        return false;
      }
      if prev.htype.Required? {
        requiredIndex := requiredIndex + 1;
      }
      return true;
    }

    /** Where the search stands that began at `start`: the places it has seen. */
    ghost predicate Seen(start: nat, p: nat, wrapped: bool, k: nat) {
      if wrapped then k >= start || k < p else start <= k < p
    }

    /** pb_field_iter_find: from the current field on, around the end and back. */
    method Find(tag: nat) returns (found: bool)
      requires Valid()
      modifies this
      ensures Valid()
      ensures found <==> exists k :: 0 <= k < |d.fields| && d.fields[k].tag == tag
      ensures found ==> pos < |d.fields| && d.fields[pos].tag == tag
    {
      if d.fields == [] {
        return false;
      }
      var start := pos;
      ghost var wrapped := false;
      while true
        invariant Valid() && pos < |d.fields| && start < |d.fields|
        invariant if wrapped then pos < start else start <= pos
        invariant forall k :: 0 <= k < |d.fields| && Seen(start, pos, wrapped, k) ==> d.fields[k].tag != tag
        decreases if wrapped then 0 else 1, |d.fields| - pos
      {
        if d.fields[pos].tag == tag {
          return true;
        }
        ghost var before := pos;
        var more := Next();
        if !more {
          wrapped := true;
        }
        if pos == start {
          return false;
        }
      }
    }
  }
}
