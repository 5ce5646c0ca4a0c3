/**
 * The naming, path and value helpers of maya_utils/object_utils.py.
 * The Maya scene (cmds, OpenMaya) is not modelled: where a helper needs an
 * answer from the scene, that answer is a parameter.
 */
module ObjectUtils {
  import opened Wrappers
  import opened Strings

  // ---------------------------------------------------------------------------
  // Python values, flatten and the singleton conversions
  // ---------------------------------------------------------------------------

  /** A Python value as these helpers see it: a string (str or unicode), a list,
      a tuple, or any other, non-iterable object (a number, None, an MObject). */
  datatype Value =
    | Str(s: string)
    | List(items: seq<Value>)
    | Tuple(items: seq<Value>)
    | Atom(id: int)

  /** `isinstance(el, collections.Iterable) and not isinstance(el, basestring)`. */
  predicate IsNestedIterable(v: Value)
  {
    v.List? || v.Tuple?
  }

  /** flatten: yields the elements of `xs` left to right, expanding every
      non-string iterable recursively; what it yields holds no iterable but strings. */
  function Flatten(xs: seq<Value>): (r: seq<Value>)
    ensures forall k :: 0 <= k < |r| ==> !IsNestedIterable(r[k])
    decreases xs
  {
    if xs == [] then []
    else
      var el := xs[0];
      (if IsNestedIterable(el) then Flatten(el.items) else [el]) + Flatten(xs[1..])
  }

  /** flatten distributes over concatenation. */
  lemma {:induction false} FlattenAppend(a: seq<Value>, b: seq<Value>)
    ensures Flatten(a + b) == Flatten(a) + Flatten(b)
    decreases |a|
  {
    if a == [] {
      assert a + b == b;
    } else {
      assert (a + b)[0] == a[0];
      assert (a + b)[1..] == a[1..] + b;
      FlattenAppend(a[1..], b);
    }
  }

  /** A sequence with no nested iterable comes back unchanged. */
  lemma {:induction false} FlattenFlat(xs: seq<Value>)
    requires forall k :: 0 <= k < |xs| ==> !IsNestedIterable(xs[k])
    ensures Flatten(xs) == xs
    decreases |xs|
  {
    if xs != [] {
      FlattenFlat(xs[1..]);
      assert [xs[0]] + xs[1..] == xs;
    }
  }

  /** Flattening twice is flattening once. */
  lemma FlattenIdempotent(xs: seq<Value>)
    ensures Flatten(Flatten(xs)) == Flatten(xs)
  {
    FlattenFlat(Flatten(xs));
  }

  /** A nested iterable at the front contributes its own flattening, in place. */
  lemma {:induction false} FlattenNestedFront(v: Value, rest: seq<Value>)
    requires IsNestedIterable(v)
    ensures Flatten([v] + rest) == Flatten(v.items) + Flatten(rest)
  {
    assert ([v] + rest)[0] == v;
    assert ([v] + rest)[1..] == rest;
  }

  /** Every top-level string or other atom is yielded whole, at the position
      given by what comes before it: a string is never split into characters. */
  lemma {:induction false} FlattenKeepsAtoms(xs: seq<Value>, k: int)
    requires 0 <= k < |xs| && !IsNestedIterable(xs[k])
    ensures Flatten(xs) == Flatten(xs[..k]) + [xs[k]] + Flatten(xs[k + 1..])
  {
    assert xs == xs[..k] + [xs[k]] + xs[k + 1..];
    FlattenAppend(xs[..k] + [xs[k]], xs[k + 1..]);
    FlattenAppend(xs[..k], [xs[k]]);
    assert Flatten([xs[k]]) == [xs[k]] + Flatten([]);
  }

  /** compare_array_lengths. */
  function CompareArrayLengths<A, B>(firstArray: seq<A>, secondArray: seq<B>): bool
  {
    |firstArray| == |secondArray|
  }

  /** compare_array_lengths holds exactly for equal lengths, so it is symmetric. */
  lemma CompareArrayLengthsSymmetric<A, B>(firstArray: seq<A>, secondArray: seq<B>)
    ensures CompareArrayLengths(firstArray, secondArray) <==> |firstArray| == |secondArray|
    ensures CompareArrayLengths(firstArray, secondArray) == CompareArrayLengths(secondArray, firstArray)
  {
  }

  /** convert_list_to_str: a list or tuple of exactly one element becomes that element. */
  function ConvertListToStr(arrayObj: Value): Value
  {
    if IsNestedIterable(arrayObj) && |arrayObj.items| == 1 then arrayObj.items[0] else arrayObj
  }

  /** convert_str_to_list: a string of exactly one character becomes a one-tuple. */
  function ConvertStrToList(arrayObj: Value): Value
  {
    if arrayObj.Str? && |arrayObj.s| == 1 then Tuple([arrayObj]) else arrayObj
  }

  /** Only singletons are unwrapped; everything else is returned unchanged. */
  lemma ConvertListToStrSingletons(v: Value)
    ensures IsNestedIterable(v) && |v.items| == 1 ==> ConvertListToStr(v) == v.items[0]
    ensures !(IsNestedIterable(v) && |v.items| == 1) ==> ConvertListToStr(v) == v
    ensures v.Str? ==> ConvertListToStr(v) == v
  {
  }

  /** Only one-character strings are wrapped: longer or empty strings and non-strings are unchanged. */
  lemma ConvertStrToListSingletons(v: Value)
    ensures v.Str? && |v.s| == 1 ==> ConvertStrToList(v) == Tuple([v])
    ensures !(v.Str? && |v.s| == 1) ==> ConvertStrToList(v) == v
  {
  }

  /** Wrapping first changes nothing about what unwrapping gives, and a
      one-character string comes back as itself. */
  lemma ConvertRoundTrip(v: Value)
    ensures ConvertListToStr(ConvertStrToList(v)) == ConvertListToStr(v)
    ensures v.Str? && |v.s| == 1 ==> ConvertListToStr(ConvertStrToList(v)) == v
  {
  }

  /** Wrapping undoes unwrapping for a one-tuple holding a one-character string. */
  lemma ConvertRoundTripTuple(c: char)
    ensures ConvertStrToList(ConvertListToStr(Tuple([Str([c])]))) == Tuple([Str([c])])
  {
  }

  // ---------------------------------------------------------------------------
  // Names
  // ---------------------------------------------------------------------------

  /** get_nice_name: `'_'.join(object_name.split(':'))`; every ':' becomes '_'
      and every other character stays where it is. */
  function GetNiceName(objectName: string): (r: string)
    ensures |r| == |objectName|
    ensures forall i :: 0 <= i < |r| ==> r[i] == (if objectName[i] == ':' then '_' else objectName[i])
  {
    JoinSplitSubst(objectName, ':', '_');
    Join(Split(objectName, ':'), "_")
  }

  /** A nice name holds no ':'. */
  lemma NiceNameHasNoColon(objectName: string)
    ensures ':' !in GetNiceName(objectName)
  {
  }

  /** get_nice_name is idempotent. */
  lemma NiceNameIdempotent(objectName: string)
    ensures GetNiceName(GetNiceName(objectName)) == GetNiceName(objectName)
  {
    var r := GetNiceName(objectName);
    NiceNameHasNoColon(objectName);
    NiceNameUnchanged(r);
  }

  /** A name without ':' is already nice. */
  lemma NiceNameUnchanged(objectName: string)
    requires ':' !in objectName
    ensures GetNiceName(objectName) == objectName
  {
    var r := GetNiceName(objectName);
    assert forall i :: 0 <= i < |r| ==> r[i] == objectName[i];
  }

  /** OpenMaya.MSpace.kWorld, kObject and kTransform. */
  datatype Space = WorldSpace | ObjectSpace | TransformSpace

  /** get_k_space: the three accepted space names map to their MSpace value;
      any other name raises NotImplementedError with the message below. */
  function GetKSpace(space: string): (r: Result<Space, string>)
    ensures r.Ok? <==> space == "world" || space == "object" || space == "transform"
    ensures r.Err? ==> r.error == "[GetKSpace] :: " + space + ", is invalid."
  {
    if space == "world" then Ok(WorldSpace)
    else if space == "object" then Ok(ObjectSpace)
    else if space == "transform" then Ok(TransformSpace)
    else Err("[GetKSpace] :: " + space + ", is invalid.")
  }

  /** The name get_k_space accepts for each space. */
  function SpaceName(k: Space): string
  {
    match k
    case WorldSpace => "world"
    case ObjectSpace => "object"
    case TransformSpace => "transform"
  }

  /** get_k_space and SpaceName are inverse: each space has exactly one accepted name. */
  lemma GetKSpaceRoundTrip(space: string, k: Space)
    ensures GetKSpace(SpaceName(k)) == Ok(k)
    ensures GetKSpace(space) == Ok(k) ==> space == SpaceName(k)
  {
  }

  /** The OpenMaya.MFn function-set type constants that node_types maps to. */
  datatype MFnType =
    | KNurbsCurve | KLocator | KMesh | KNurbsSurface | KUnitConversion
    | KBlendWeighted | KTransform | KFollicle | KDagNode | KJoint
    | KComponent | KLattice | KBlendShape | KAnimCurve | KSet
    | KCamera | KSkin | KSkinClusterFilter | KTweak | KDeformBend
    | KDeformSquash | KCluster | KDeltaMush | KWire | KSculpt
    | KWrapFilter | KShrinkWrapFilter

  /** node_types, entry by entry in the order of its dict display. */
  const NodeTypeEntries: seq<(string, MFnType)> := [
    ("nurbsCurve", KNurbsCurve),
    ("locator", KLocator),
    ("mesh", KMesh),
    ("nurbsSurface", KNurbsSurface),
    ("unitConversion", KUnitConversion),
    ("blendWeighted", KBlendWeighted),
    ("transform", KTransform),
    ("follicle", KFollicle),
    ("dag", KDagNode),
    ("joint", KJoint),
    ("component", KComponent),
    ("lattice", KLattice),
    ("blendShape", KBlendShape),
    ("animCurve", KAnimCurve),
    ("set", KSet),
    ("camera", KCamera),
    ("skin", KSkin),
    ("skinCluster", KSkinClusterFilter),
    ("tweak", KTweak),
    ("bend", KDeformBend),
    ("squash", KDeformSquash),
    ("cluster", KCluster),
    ("deltaMush", KDeltaMush),
    ("wire", KWire),
    ("sculpt", KSculpt),
    ("wrap", KWrapFilter),
    ("shrinkWrap", KShrinkWrapFilter)
  ]

  /** A Python dict display: entries are added in order, a later key replacing an earlier one. */
  function DictOf<K, V>(entries: seq<(K, V)>): map<K, V>
    decreases |entries|
  {
    if entries == [] then map[]
    else
      var last := entries[|entries| - 1];
      DictOf(entries[..|entries| - 1])[last.0 := last.1]
  }

  /** No key appears twice among the entries. */
  predicate DistinctKeys<K(==), V>(entries: seq<(K, V)>)
  {
    forall i, j :: 0 <= i < j < |entries| ==> entries[i].0 != entries[j].0
  }

  /** The keys of a dict display are the keys of its entries. */
  lemma {:induction false} DictOfKeys<K, V>(entries: seq<(K, V)>, k: K)
    ensures k in DictOf(entries) <==> exists i :: 0 <= i < |entries| && entries[i].0 == k
    decreases |entries|
  {
    if entries != [] {
      var n := |entries| - 1;
      DictOfKeys(entries[..n], k);
      if exists i :: 0 <= i < |entries| && entries[i].0 == k {
        var i :| 0 <= i < |entries| && entries[i].0 == k;
        if i < n {
          assert entries[..n][i].0 == k;
        }
      }
    }
  }

  /** With distinct keys, each entry's key maps to its value and the dict has one key per entry. */
  lemma {:induction false} DictOfDistinct<K, V>(entries: seq<(K, V)>)
    requires DistinctKeys(entries)
    ensures |DictOf(entries)| == |entries|
    ensures forall i :: 0 <= i < |entries| ==> entries[i].0 in DictOf(entries) && DictOf(entries)[entries[i].0] == entries[i].1
    decreases |entries|
  {
    if entries != [] {
      var n := |entries| - 1;
      var prefix := entries[..n];
      assert DistinctKeys(prefix);
      DictOfDistinct(prefix);
      DictOfKeys(prefix, entries[n].0);
      forall i | 0 <= i < |entries|
        ensures entries[i].0 in DictOf(entries) && DictOf(entries)[entries[i].0] == entries[i].1
      {
        if i < n {
          assert prefix[i] == entries[i];
        }
      }
    }
  }

  /** node_types; its keys and values are stated by `TypeExists`,
      `NodeTypesTable` and `NodeTypeConstant`. */
  function NodeTypes(): map<string, MFnType>
  {
    DictOf(NodeTypeEntries)
  }

  /** type_exists: the shape type is one of the names listed in node_types. */
  predicate TypeExists(shapeType: string)
    ensures TypeExists(shapeType) <==> exists i :: 0 <= i < |NodeTypeEntries| && NodeTypeEntries[i].0 == shapeType
  {
    DictOfKeys(NodeTypeEntries, shapeType);
    shapeType in NodeTypes()
  }

  /** node_types has exactly 27 keys: no listed name is repeated. */
  lemma NodeTypesTable()
    ensures |NodeTypes()| == 27
  {
    assert DistinctKeys(NodeTypeEntries);
    DictOfDistinct(NodeTypeEntries);
  }

  /** Each listed key maps to its own MFn constant. */
  lemma NodeTypeConstant(i: int)
    requires 0 <= i < |NodeTypeEntries|
    ensures NodeTypeEntries[i].0 in NodeTypes() && NodeTypes()[NodeTypeEntries[i].0] == NodeTypeEntries[i].1
  {
    assert DistinctKeys(NodeTypeEntries);
    DictOfDistinct(NodeTypeEntries);
  }

  // ---------------------------------------------------------------------------
  // get_parents: the walk along DAG path names
  // ---------------------------------------------------------------------------

  /** The elements of `xs` up to and including the first one equal to `x`,
      or all of `xs` when none is: the inner loop of get_parents with its `break`. */
  function TakeThrough(xs: seq<string>, x: string): (r: seq<string>)
    decreases |xs|
  {
    if xs == [] then []
    else if xs[0] == x then [x]
    else [xs[0]] + TakeThrough(xs[1..], x)
  }

  /** Without `x`, nothing is cut. */
  lemma {:induction false} TakeThroughAbsent(xs: seq<string>, x: string)
    requires x !in xs
    ensures TakeThrough(xs, x) == xs
    decreases |xs|
  {
    if xs != [] {
      TakeThroughAbsent(xs[1..], x);
      assert [xs[0]] + xs[1..] == xs;
    }
  }

  /** With `x` first found at index `i`, the result stops right after it. */
  lemma {:induction false} TakeThroughAt(xs: seq<string>, x: string, i: int)
    requires 0 <= i < |xs| && xs[i] == x
    requires forall j :: 0 <= j < i ==> xs[j] != x
    ensures TakeThrough(xs, x) == xs[..i + 1]
    decreases |xs|
  {
    if i > 0 {
      TakeThroughAt(xs[1..], x, i - 1);
      assert xs[..i + 1] == [xs[0]] + xs[1..][..i];
    }
  }

  /** The components of one `|`-separated path, in reverse, cut just after `stopAt`. */
  function PathParents(fullPathName: string, stopAt: string): seq<string>
  {
    TakeThrough(Reverse(Split(fullPathName, '|')), stopAt)
  }

  /** What get_parents collects over all the DAG paths of the object, in order. */
  function AllPathParents(fullPathNames: seq<string>, stopAt: string): seq<string>
    decreases |fullPathNames|
  {
    if fullPathNames == [] then []
    else
      AllPathParents(fullPathNames[..|fullPathNames| - 1], stopAt)
        + PathParents(fullPathNames[|fullPathNames| - 1], stopAt)
  }

  /** One path's walk starts at the object's own name (the last component), never
      passes `stopAt` without stopping, and ends at `stopAt` when `stopAt` is a
      component; otherwise it is every component in reverse. */
  lemma PathParentsShape(fullPathName: string, stopAt: string)
    ensures var comps := Split(fullPathName, '|');
      var r := PathParents(fullPathName, stopAt);
      && |r| >= 1
      && r[0] == comps[|comps| - 1]
      && r <= Reverse(comps)
      && (forall j :: 0 <= j < |r| - 1 ==> r[j] != stopAt)
      && (stopAt in comps ==> r[|r| - 1] == stopAt)
      && (stopAt !in comps ==> r == Reverse(comps))
  {
    var comps := Split(fullPathName, '|');
    var rev := Reverse(comps);
    ReverseLength(comps);
    ReverseAt(comps, 0);
    ReverseIn(comps, stopAt);
    if stopAt in rev {
      var i := FirstIndex(rev, stopAt);
      TakeThroughAt(rev, stopAt, i);
    } else {
      TakeThroughAbsent(rev, stopAt);
    }
  }

  /** The index of the first `x` in `xs`. */
  function FirstIndex(xs: seq<string>, x: string): (i: int)
    requires x in xs
    ensures 0 <= i < |xs| && xs[i] == x && forall j :: 0 <= j < i ==> xs[j] != x
    decreases |xs|
  {
    if xs[0] == x then 0 else FirstIndex(xs[1..], x) + 1
  }

  /** get_parents. The scene supplies the parent count of the object and the
      full path name of each of its DAG paths (MDagPath.fullPathName). */
  method GetParents(parentCount: nat, fullPathNames: seq<string>, stopAt: string)
    returns (returnData: seq<string>)
    ensures returnData == if parentCount == 0 then [] else AllPathParents(fullPathNames, stopAt)
  {
    returnData := [];
    if parentCount > 0 {
      var i := 0;
      while i < |fullPathNames|
        invariant 0 <= i <= |fullPathNames|
        invariant returnData == AllPathParents(fullPathNames[..i], stopAt)
      {
        var pNodeLs := Reverse(Split(fullPathNames[i], '|'));
        ghost var before := returnData;
        var j := 0;
        while j < |pNodeLs|
          invariant 0 <= j <= |pNodeLs|
          invariant returnData == before + pNodeLs[..j]
          invariant forall m :: 0 <= m < j ==> pNodeLs[m] != stopAt
        {
          var p := pNodeLs[j];
          returnData := returnData + [p];
          if p == stopAt {
            TakeThroughAt(pNodeLs, stopAt, j);
            break;
          }
          j := j + 1;
        }
        if j == |pNodeLs| {
          assert pNodeLs[..j] == pNodeLs;
          TakeThroughAbsent(pNodeLs, stopAt);
        }
        assert returnData == before + TakeThrough(pNodeLs, stopAt);
        assert fullPathNames[..i + 1][..i] == fullPathNames[..i];
        i := i + 1;
      }
      assert fullPathNames[..i] == fullPathNames;
    }
  }

  // ---------------------------------------------------------------------------
  // Attribute names
  // ---------------------------------------------------------------------------

  /** attr_name: `object_name + '.' + attribute_name`. With `check` set, the
      scene's answer to whether that attribute exists (`objExists`) decides
      between the name and the ValueError it raises. */
  function AttrName(objectName: string, attributeName: string, check: bool, objExists: bool)
    : (r: Result<string, string>)
    ensures r.Ok? <==> !check || objExists
    ensures r.Ok? ==> r.value == objectName + "." + attributeName
    ensures r.Err? ==> r.error == "[AttrNameError] :: attribute name does not exit: " + objectName + "." + attributeName + "]"
  {
    var attrStr := objectName + "." + attributeName;
    if check && !objExists then Err("[AttrNameError] :: attribute name does not exit: " + attrStr + "]")
    else Ok(attrStr)
  }

  /** attr_split: the pieces of the name between its dots; none holds a dot,
      and joining them with dots gives the name back. */
  function AttrSplit(aName: string): (r: seq<string>)
    ensures |r| >= 1
    ensures forall k :: 0 <= k < |r| ==> '.' !in r[k]
    ensures Join(r, ".") == aName
  {
    JoinSplit(aName, '.');
    Split(aName, '.')
  }

  /** Splitting the name attr_name builds gives back its two parts, when neither holds a dot. */
  lemma AttrNameSplitRoundTrip(objectName: string, attributeName: string, check: bool, objExists: bool)
    requires '.' !in objectName && '.' !in attributeName
    requires !check || objExists
    ensures AttrSplit(AttrName(objectName, attributeName, check, objExists).value) == [objectName, attributeName]
  {
    SplitAt(objectName, '.', attributeName);
    SplitAbsent(attributeName, '.');
  }

  /** `a.rpartition('.')[-1]`: the whole item when it has no '.', and otherwise
      the dot-free text after a '.', that is after its last '.'. */
  function AttrLeaf(a: string): (r: string)
    ensures '.' !in r
    ensures '.' !in a ==> r == a
    ensures '.' in a ==> exists head :: a == head + "." + r
  {
    RPartitionTail(a, ".");
    ContainsChar(RPartition(a, ".").2, '.');
    ContainsChar(a, '.');
    ContainsIff(a, ".");
    RPartition(a, ".").2
  }

  /** Item.split_attr_names. */
  function SplitAttrNames(arrayItems: seq<string>): (r: seq<string>)
    ensures |r| == |arrayItems|
    ensures forall k :: 0 <= k < |r| ==> r[k] == AttrLeaf(arrayItems[k])
  {
    seq(|arrayItems|, k requires 0 <= k < |arrayItems| => AttrLeaf(arrayItems[k]))
  }

  /** split_attr_names recovers the attribute part of names built by attr_name,
      whatever dots the node part holds. */
  lemma SplitAttrNamesOfAttrName(objectName: string, attributeName: string)
    requires '.' !in attributeName
    ensures SplitAttrNames([AttrName(objectName, attributeName, false, false).value]) == [attributeName]
  {
    RPartitionLast(objectName, '.', attributeName);
  }
}
