/** classifyCAbiValue as the source runs it: recursion that updates one classification record. */
module CAbiClassifier {
  import opened StructLayout
  import opened CAbiClasses

  class Classifier {
    var classes: array<Class>
    var floats: seq<Leaf>
    var leaves: seq<Leaf>
    var byteLength: nat

    ghost predicate Valid()
      reads this
    {
      classes.Length == 2
    }

    ghost function Value(): Classification
      reads this, classes
      requires Valid()
    {
      Classification(classes[0], classes[1], floats, leaves, byteLength)
    }

    constructor (byteLength: nat)
      ensures Valid() && fresh(classes)
      ensures Value() == Classification(NoClass, NoClass, [], [], byteLength)
    {
      classes := new Class[2](_ => NoClass);
      floats, leaves, this.byteLength := [], [], byteLength;
    }

    /** Both the loop over the elements of an array and the case of a single element. */
    method ClassifyValue(t: AbiType, offset: nat) returns (ok: bool)
      requires Valid()
      modifies this`floats, this`leaves, classes
      ensures Valid()
      ensures ok == Classify(t, offset, old(Value())).Some?
      ensures ok ==> Value() == Classify(t, offset, old(Value())).value
      decreases t, 2
    {
      if t.elementCount == 0 || t.byteLength == 0 || t.byteLength > SIZE_MAX / t.elementCount {
        return false;
      }
      if t.elementCount == 1 {
        ok := ClassifyElement(t, offset);
        return;
      }
      hide ClassifyOne, ElementAt;
      ghost var goal := ClassifyElements(t, offset, Value(), 0);
      for index := 0 to t.elementCount
        invariant goal == ClassifyElements(t, offset, Value(), index)
      {
        var at := ElementAt(t, offset, index);
        if at > SIZE_MAX {
          return false;
        }
        ok := ClassifyElement(t, at);
        if !ok {
          return;
        }
      }
      ok := true;
    }

    method ClassifyElement(t: AbiType, offset: nat) returns (ok: bool)
      requires Valid()
      modifies this`floats, this`leaves, classes
      ensures Valid()
      ensures ok == ClassifyOne(t, offset, old(Value())).Some?
      ensures ok ==> Value() == ClassifyOne(t, offset, old(Value())).value
      decreases t, 1
    {
      hide Classify;
      if t.alignment == 0 || offset % t.alignment != 0 || offset > byteLength || t.byteLength > byteLength - offset {
        return false;
      }
      if t.kind.Aggregate? {
        if t.fields == [] || |t.fields| != |t.offsets| {
          return false;
        }
        ghost var goal := ClassifyFields(t.fields, t.offsets, t.byteLength, offset, Value());
        assert t.fields[0..] == t.fields && t.offsets[0..] == t.offsets;
        for index := 0 to |t.fields|
          invariant goal == ClassifyFields(t.fields[index..], t.offsets[index..], t.byteLength, offset, Value())
        {
          assert t.fields[index..][1..] == t.fields[index + 1..] && t.offsets[index..][1..] == t.offsets[index + 1..];
          if t.offsets[index] > t.byteLength || offset > SIZE_MAX - t.offsets[index] {
            return false;
          }
          ok := ClassifyValue(t.fields[index], offset + t.offsets[index]);
          if !ok {
            return;
          }
        }
        return true;
      }
      if t.kind.Void? || offset + t.byteLength == 0 || (offset + t.byteLength - 1) / 8 >= 2 {
        return false;
      }
      MergeInto(offset / 8, (offset + t.byteLength - 1) / 8, ClassOf(t.kind));
      if t.kind.Floating? {
        floats := floats + [Leaf(t.kind, offset, t.byteLength)];
      }
      leaves := leaves + [Leaf(t.kind, offset, t.byteLength)];
      ok := true;
    }

    method MergeInto(from: nat, to: nat, cls: Class)
      requires Valid() && to < 2
      modifies classes
      ensures Valid()
      ensures classes[0] == if from == 0 then MergeClass(old(classes[0]), cls) else old(classes[0])
      ensures classes[1] == if from <= 1 <= to then MergeClass(old(classes[1]), cls) else old(classes[1])
    {
      var index := from;
      while index <= to
        invariant from <= index
        invariant forall i | 0 <= i < 2 ::
          classes[i] == if from <= i < index && i <= to then MergeClass(old(classes[i]), cls) else old(classes[i])
      {
        classes[index] := MergeClass(classes[index], cls);
        index := index + 1;
      }
    }
  }
}
