/**
 * The controller and locator naming of rig_utils/control_utils.py.
 * Scene calls (cmds.ls, cmds.createNode, cmds.rename, cmds.xform, the
 * curve-shape files) are not modelled: what they answer is a parameter.
 */
module ControlUtils {
  import opened Strings
  import ObjectUtils

  const CtrlSuffix: string := "ctrl"
  const LocatorSuffix: string := "loc"

  /** `'_{}'.format(LOCATOR_SUFFIX)` and `'_{}'.format(CTRL_SUFFIX)`. */
  const LocatorSuffixName: string := "_" + LocatorSuffix
  const ControlSuffixName: string := "_" + CtrlSuffix

  // ---------------------------------------------------------------------------
  // Suffix tests and removal
  // ---------------------------------------------------------------------------

  /** What a suffix test and a suffix removal do, for any non-empty suffix:
      the test is containment at any offset, not only at the end; the removal
      gives "" when the suffix is absent, and otherwise the text before its last
      occurrence, after which the suffix does not occur again. */
  lemma SuffixSpec(objectName: string, suffix: string)
    requires suffix != []
    ensures Contains(objectName, suffix) <==> exists i :: OccursAt(objectName, suffix, i)
    ensures !Contains(objectName, suffix) ==> RPartition(objectName, suffix).0 == []
    ensures Contains(objectName, suffix) ==>
      var rest := RPartition(objectName, suffix).2;
      objectName == RPartition(objectName, suffix).0 + suffix + rest && !Contains(rest, suffix)
  {
    ContainsIff(objectName, suffix);
    RPartitionTail(objectName, suffix);
  }

  /** Appending the suffix makes the test pass, and removing it gives the stem back. */
  lemma SuffixRoundTrip(stem: string, suffix: string)
    requires suffix != []
    ensures Contains(stem + suffix, suffix)
    ensures RPartition(stem + suffix, suffix).0 == stem
  {
    RPartitionOfSuffixed(stem, suffix);
    ContainsIff(stem + suffix, suffix);
    assert (stem + suffix)[|stem|..|stem| + |suffix|] == suffix;
    assert OccursAt(stem + suffix, suffix, |stem|);
  }

  /** check_locator_suffix_name: "_loc" occurs somewhere in the name, not
      necessarily at its end. */
  predicate CheckLocatorSuffixName(objectName: string)
    ensures CheckLocatorSuffixName(objectName) <==> exists i :: OccursAt(objectName, "_loc", i)
  {
    assert LocatorSuffixName == "_loc";
    ContainsIff(objectName, LocatorSuffixName);
    Contains(objectName, LocatorSuffixName)
  }

  /** remove_locator_suffix_name: "" when there is no "_loc", and otherwise the
      text before the last "_loc". */
  function RemoveLocatorSuffixName(objectName: string): (r: string)
    ensures !CheckLocatorSuffixName(objectName) ==> r == ""
    ensures CheckLocatorSuffixName(objectName) ==>
      exists rest :: objectName == r + "_loc" + rest && !Contains(rest, "_loc")
  {
    assert LocatorSuffixName == "_loc";
    SuffixSpec(objectName, LocatorSuffixName);
    RPartition(objectName, LocatorSuffixName).0
  }

  /** check_control_suffix_name: "_ctrl" occurs somewhere in the name, not
      necessarily at its end. */
  predicate CheckControlSuffixName(objectName: string)
    ensures CheckControlSuffixName(objectName) <==> exists i :: OccursAt(objectName, "_ctrl", i)
  {
    assert ControlSuffixName == "_ctrl";
    ContainsIff(objectName, ControlSuffixName);
    Contains(objectName, ControlSuffixName)
  }

  /** remove_control_suffix_name: "" when there is no "_ctrl", and otherwise the
      text before the last "_ctrl". */
  function RemoveControlSuffixName(objectName: string): (r: string)
    ensures !CheckControlSuffixName(objectName) ==> r == ""
    ensures CheckControlSuffixName(objectName) ==>
      exists rest :: objectName == r + "_ctrl" + rest && !Contains(rest, "_ctrl")
  {
    assert ControlSuffixName == "_ctrl";
    SuffixSpec(objectName, ControlSuffixName);
    RPartition(objectName, ControlSuffixName).0
  }

  /** remove_locator_suffix_name undoes appending "_loc", for every stem. */
  lemma LocatorSuffixRoundTrip(stem: string)
    ensures CheckLocatorSuffixName(stem + "_loc")
    ensures RemoveLocatorSuffixName(stem + "_loc") == stem
  {
    assert LocatorSuffixName == "_loc";
    SuffixRoundTrip(stem, LocatorSuffixName);
  }

  /** remove_control_suffix_name undoes appending "_ctrl", for every stem. */
  lemma ControlSuffixRoundTrip(stem: string)
    ensures CheckControlSuffixName(stem + "_ctrl")
    ensures RemoveControlSuffixName(stem + "_ctrl") == stem
  {
    assert ControlSuffixName == "_ctrl";
    SuffixRoundTrip(stem, ControlSuffixName);
  }

  /** The suffix tests are not anchored at the end: any name with "_loc" inside
      counts as a locator, "x_location" among them (stem "x", rest "ation"). */
  lemma SuffixTestUnanchored(stem: string, rest: string)
    ensures CheckLocatorSuffixName(stem + "_loc" + rest)
  {
    var s := stem + "_loc" + rest;
    assert s[|stem|..|stem| + 4] == "_loc";
    assert OccursAt(s, "_loc", |stem|);
  }

  // ---------------------------------------------------------------------------
  // Attribute strings
  // ---------------------------------------------------------------------------

  /** attr_str: `ctrl.attr`. */
  function AttrStr(ctrlName: string, attrName: string): string
  {
    ctrlName + "." + attrName
  }

  /** attr_split takes an attr_str apart again when neither part holds a dot. */
  lemma AttrStrSplit(ctrlName: string, attrName: string)
    requires '.' !in ctrlName && '.' !in attrName
    ensures ObjectUtils.AttrSplit(AttrStr(ctrlName, attrName)) == [ctrlName, attrName]
  {
    SplitAt(ctrlName, '.', attrName);
    SplitAbsent(attrName, '.');
  }

  /** attr_str builds the same name as object_utils.attr_name without the
      existence check. */
  lemma AttrStrAgrees(ctrlName: string, attrName: string, objExists: bool)
    ensures AttrStr(ctrlName, attrName) == ObjectUtils.AttrName(ctrlName, attrName, false, objExists).value
  {
  }

  // ---------------------------------------------------------------------------
  // Generated controller names: create_controls and create_control
  // ---------------------------------------------------------------------------

  /** `'{}_{}_{}'.format(name, idx, CTRL_SUFFIX)`: it passes the control suffix
      test, and removing the suffix leaves `name_idx`. */
  function ControlName(name: string, idx: nat): (r: string)
    ensures CheckControlSuffixName(r)
    ensures RemoveControlSuffixName(r) == name + "_" + NatToString(idx)
  {
    var stem := name + "_" + NatToString(idx);
    assert stem + "_" + CtrlSuffix == stem + "_ctrl";
    ControlSuffixRoundTrip(stem);
    name + "_" + NatToString(idx) + "_" + CtrlSuffix
  }

  /** The names loop of create_controls: one name per object, numbered from 0.
      Creating each controller at its transform is a scene call, not modelled. */
  method CreateControls(objectsArray: seq<string>, name: string) returns (names: seq<string>)
    ensures |names| == |objectsArray|
    ensures forall i :: 0 <= i < |names| ==> names[i] == ControlName(name, i)
  {
    names := [];
    for idx := 0 to |objectsArray|
      invariant |names| == idx
      invariant forall i :: 0 <= i < idx ==> names[i] == ControlName(name, i)
    {
      names := names + [name + "_" + NatToString(idx) + "_" + CtrlSuffix];
    }
  }

  /** Different indices give different names, so create_controls never repeats a name. */
  lemma ControlNamesDistinct(name: string, i: nat, j: nat)
    requires ControlName(name, i) == ControlName(name, j)
    ensures i == j
  {
    var si := name + "_" + NatToString(i);
    var sj := name + "_" + NatToString(j);
    assert si == sj;
    assert si[|name| + 1..] == NatToString(i);
    assert sj[|name| + 1..] == NatToString(j);
    NatToStringInjective(i, j);
  }

  /** The names of create_controls are pairwise distinct. */
  lemma CreateControlsNamesDistinct(names: seq<string>, name: string)
    requires forall i :: 0 <= i < |names| ==> names[i] == ControlName(name, i)
    ensures forall i, j :: 0 <= i < j < |names| ==> names[i] != names[j]
  {
    forall i, j | 0 <= i < j < |names|
      ensures names[i] != names[j]
    {
      if names[i] == names[j] {
        ControlNamesDistinct(name, i, j);
      }
    }
  }

  /** The default group suffixes of create_control. */
  const DefaultGroups: seq<string> := ["grp"]

  /** The group names of create_control, `'{}_{}'.format(curve_name, x)` for each
      suffix `x`, where `curveName` is what cmds.rename returned: one per suffix,
      in the suffixes' order, each the curve name, an underscore and its suffix. */
  function GroupNames(curveName: string, groups: seq<string>): (r: seq<string>)
    ensures |r| == |groups|
    ensures forall i :: 0 <= i < |r| ==>
      && curveName + "_" <= r[i]
      && r[i][|curveName| + 1..] == groups[i]
  {
    seq(|groups|, i requires 0 <= i < |groups| => curveName + "_" + groups[i])
  }

  /** With the default suffixes, create_control makes the one group `curve_grp`. */
  lemma DefaultGroupName(curveName: string)
    ensures GroupNames(curveName, DefaultGroups) == [curveName + "_grp"]
  {
    var r := GroupNames(curveName, DefaultGroups);
    assert r[0] == curveName + "_" + "grp";
    assert curveName + "_" + "grp" == curveName + "_grp";
  }

  // ---------------------------------------------------------------------------
  // Locator names: create_locators
  // ---------------------------------------------------------------------------

  /** The characters `re_brackets` removes. */
  const Brackets: set<char> := {'[', ']'}

  /** The name create_locators gives before the suffix: a component selection
      `node.comp` becomes `node_comp`, with brackets taken out of `comp`;
      anything else is kept. */
  function LocatorBaseName(sl: string): string
  {
    if Contains(sl, ".") then
      var parts := Partition(sl, ".");
      parts.0 + "_" + DeleteChars(parts.2, Brackets)
    else sl
  }

  /** The locator name of create_locators: it passes the locator suffix test,
      and removing the suffix gives back the name it was built from. */
  function LocatorName(sl: string): (r: string)
    ensures CheckLocatorSuffixName(r)
    ensures RemoveLocatorSuffixName(r) == LocatorBaseName(sl)
  {
    assert LocatorBaseName(sl) + "_" + LocatorSuffix == LocatorBaseName(sl) + "_loc";
    LocatorSuffixRoundTrip(LocatorBaseName(sl));
    LocatorBaseName(sl) + "_" + LocatorSuffix
  }

  /** What create_locators asks of the scene for one selected item: a locator
      shape with `shapeName`, then a snap of `locatorName` to `target` by matrix
      or by translation. */
  datatype LocatorPlan = LocatorPlan(shapeName: string, locatorName: string, target: string, matrix: bool, translate: bool)

  /** create_locators over the selection the scene reports; always returns True. */
  method CreateLocators(selection: seq<string>) returns (plans: seq<LocatorPlan>, ok: bool)
    ensures ok
    ensures |plans| == |selection|
    ensures forall i :: 0 <= i < |selection| ==>
      && plans[i].locatorName == LocatorName(selection[i])
      && plans[i].shapeName == LocatorName(selection[i]) + "Shape"
      && plans[i].target == selection[i]
      && plans[i].translate == Contains(selection[i], ".")
      && plans[i].matrix == !Contains(selection[i], ".")
  {
    plans := [];
    for k := 0 to |selection|
      invariant |plans| == k
      invariant forall i :: 0 <= i < k ==>
        && plans[i].locatorName == LocatorName(selection[i])
        && plans[i].shapeName == LocatorName(selection[i]) + "Shape"
        && plans[i].target == selection[i]
        && plans[i].translate == Contains(selection[i], ".")
        && plans[i].matrix == !Contains(selection[i], ".")
    {
      var sl := selection[k];
      var name, matrix, translate;
      if Contains(sl, ".") {
        var parts := Partition(sl, ".");
        name := parts.0;
        matrix := false;
        translate := true;
        name := name + "_" + DeleteChars(parts.2, Brackets);
      } else {
        matrix := true;
        translate := false;
        name := sl;
      }
      var locatorName := name + "_" + LocatorSuffix;
      plans := plans + [LocatorPlan(locatorName + "Shape", locatorName, sl, matrix, translate)];
    }
    ok := true;
  }

  /** A component `node.comp` (no dot in `node`) gives `node_comp_loc`, without
      brackets; a component without brackets is kept as it is. */
  lemma LocatorNameOfComponent(node: string, comp: string)
    requires '.' !in node
    ensures LocatorName(node + "." + comp) == node + "_" + DeleteChars(comp, Brackets) + "_loc"
    ensures (forall k :: 0 <= k < |comp| ==> comp[k] !in Brackets) ==>
      LocatorName(node + "." + comp) == node + "_" + comp + "_loc"
  {
    if forall k :: 0 <= k < |comp| ==> comp[k] !in Brackets {
      DeleteCharsNone(comp, Brackets);
    }
    var sl := node + "." + comp;
    PartitionFirst(node, '.', comp);
    ContainsIff(sl, ".");
    assert sl[|node|..|node| + 1] == ".";
    assert OccursAt(sl, ".", |node|);
  }

  /** Bracket removal on `kind[digits]` keeps `kind` and `digits`, in order. */
  lemma BracketsRemoved(kind: string, digits: string)
    requires forall k :: 0 <= k < |kind| ==> kind[k] !in Brackets
    requires forall k :: 0 <= k < |digits| ==> digits[k] !in Brackets
    ensures DeleteChars(kind + "[" + digits + "]", Brackets) == kind + digits
  {
    DeleteCharsNone(kind, Brackets);
    DeleteCharsNone(digits, Brackets);
    DeleteCharsSingle('[', Brackets);
    DeleteCharsSingle(']', Brackets);
    DeleteCharsAppend(kind, "[", Brackets);
    assert DeleteChars(kind + "[", Brackets) == kind;
    DeleteCharsAppend(kind + "[", digits, Brackets);
    assert DeleteChars(kind + "[" + digits, Brackets) == kind + digits;
    DeleteCharsAppend(kind + "[" + digits, "]", Brackets);
  }

  /** An indexed component `node.kind[idx]`, as `pSphere1.vtx[3]`, gives
      `node_kindidx_loc`: the brackets go and every other character stays. */
  lemma LocatorNameOfIndexedComponent(node: string, kind: string, idx: nat)
    requires '.' !in node
    requires forall k :: 0 <= k < |kind| ==> kind[k] !in Brackets
    ensures LocatorName(node + "." + kind + "[" + NatToString(idx) + "]")
      == node + "_" + kind + NatToString(idx) + "_loc"
  {
    var digits := NatToString(idx);
    var comp := kind + "[" + digits + "]";
    assert node + "." + kind + "[" + digits + "]" == node + "." + comp;
    assert forall k :: 0 <= k < |digits| ==> IsDigit(digits[k]);
    BracketsRemoved(kind, digits);
    LocatorNameOfComponent(node, comp);
  }

  /** A selection without a dot gives `sl_loc`. */
  lemma LocatorNameOfNode(sl: string)
    requires '.' !in sl
    ensures LocatorName(sl) == sl + "_loc"
  {
    ContainsChar(sl, '.');
  }

  // ---------------------------------------------------------------------------
  // mirror_transforms
  // ---------------------------------------------------------------------------

  /** The mirror name of mirror_transforms: "_l_" swapped for "_r_"; but when the
      name holds "_r_", "_r_" swapped for "_l_" instead; "" when it holds neither.
      A name with a side token has a mirror name of its length that differs from it. */
  function MirrorName(objectName: string): (r: string)
    ensures r == "" <==> !Contains(objectName, "_l_") && !Contains(objectName, "_r_")
    ensures r != "" ==> |r| == |objectName| && r != objectName
  {
    ReplaceLength(objectName, "_l_", "_r_");
    ReplaceLength(objectName, "_r_", "_l_");
    ReplaceChanges(objectName, "_l_", "_r_");
    ReplaceChanges(objectName, "_r_", "_l_");
    var mirrorObjName := if Contains(objectName, "_l_") then Replace(objectName, "_l_", "_r_") else "";
    if Contains(objectName, "_r_") then Replace(objectName, "_r_", "_l_") else mirrorObjName
  }

  /** Without "_r_", the first "_l_" (at `|p|`) is swapped for "_r_" and the rest
      of the name is mirrored the same way; a single "_l_" is all that changes. */
  lemma MirrorNameLeft(p: string, q: string)
    requires forall j :: 0 <= j < |p| ==> !OccursAt(p + "_l_" + q, "_l_", j)
    requires !Contains(p + "_l_" + q, "_r_")
    ensures MirrorName(p + "_l_" + q) == p + "_r_" + Replace(q, "_l_", "_r_")
    ensures !Contains(q, "_l_") ==> MirrorName(p + "_l_" + q) == p + "_r_" + q
  {
    var s := p + "_l_" + q;
    assert s[|p|..|p| + 3] == "_l_";
    assert OccursAt(s, "_l_", |p|);
    ContainsIff(s, "_l_");
    ReplaceFirst(p, "_l_", "_r_", q);
    if !Contains(q, "_l_") {
      ReplaceAbsent(q, "_l_", "_r_");
    }
  }

  /** With "_r_", the first "_r_" (at `|p|`) is swapped for "_l_" and the rest of
      the name is mirrored the same way; any "_l_" is kept. */
  lemma MirrorNameRight(p: string, q: string)
    requires forall j :: 0 <= j < |p| ==> !OccursAt(p + "_r_" + q, "_r_", j)
    ensures MirrorName(p + "_r_" + q) == p + "_l_" + Replace(q, "_r_", "_l_")
    ensures !Contains(q, "_r_") ==> MirrorName(p + "_r_" + q) == p + "_l_" + q
  {
    var s := p + "_r_" + q;
    assert s[|p|..|p| + 3] == "_r_";
    assert OccursAt(s, "_r_", |p|);
    ContainsIff(s, "_r_");
    ReplaceFirst(p, "_r_", "_l_", q);
    if !Contains(q, "_r_") {
      ReplaceAbsent(q, "_r_", "_l_");
    }
  }

  /** "_r_" takes precedence: a name `a_l_b_r_c` keeps its "_l_" and gets
      `a_l_b_l_c`, with `c` mirrored the same way, so `arm_l_x_r_ctrl` becomes
      `arm_l_x_l_ctrl`, not a right-hand name. No underscore in `a` or `b`, and
      `b` is not "r" (in `a_l_r_r_c` the first "_r_" is the one after the "_l"). */
  lemma MirrorNameBothTokens(a: string, b: string, c: string)
    requires '_' !in a && '_' !in b && b != "r"
    ensures MirrorName(a + "_l_" + b + "_r_" + c) == a + "_l_" + b + "_l_" + Replace(c, "_r_", "_l_")
  {
    var p := a + "_l_" + b;
    var s := p + "_r_" + c;
    assert s == a + "_l_" + b + "_r_" + c;
    assert s[..|a| + 3] == a + "_l_";
    assert s[|a| + 3..] == b + "_r_" + c;
    forall j | 0 <= j < |p|
      ensures !OccursAt(s, "_r_", j)
    {
      if j < |a| {
        assert s[j..j + 3][0] == a[j];
      } else if j == |a| {
        assert s[j..j + 3][1] == 'l';
      } else if j == |a| + 1 {
        assert s[j..j + 3][0] == 'l';
      } else if j == |a| + 2 {
        if |b| == 0 {
          assert s[j..j + 3][1] == '_';
        } else if b[0] != 'r' {
          assert s[j..j + 3][1] == b[0];
        } else {
          assert s[j..j + 3][2] == b[1];
        }
      } else {
        assert s[j..j + 3][0] == b[j - |a| - 3];
      }
    }
    MirrorNameRight(p, c);
  }

  /** mirror_transforms as written: line 61 compares the mirror name with itself,
      so it returns False for every object and never reaches the scene calls.
      An empty `objectName` means the selected node. */
  function MirrorTransforms(objectName: string, selectedNode: string): (r: bool)
    ensures !r
  {
    var name := if objectName == "" then selectedNode else objectName;
    var mirrorObjName := MirrorName(name);
    if mirrorObjName == mirrorObjName then false
    else true
  }

  /** Every name with a side token has a mirror name different from it, and
      mirror_transforms still returns False for it; "arm_l_ctrl" is one such name. */
  lemma MirrorTransformsIgnoresPartner(objectName: string)
    requires Contains(objectName, "_l_") || Contains(objectName, "_r_")
    ensures MirrorName(objectName) != "" && MirrorName(objectName) != objectName
    ensures !MirrorTransforms(objectName, "")
    ensures Contains("arm_l_ctrl", "_l_") && !MirrorTransforms("arm_l_ctrl", "")
  {
  }

  /** mirror_transforms as its documentation intends it: it fails (False) exactly
      when the name has no left/right token, and otherwise goes on to mirror onto
      an object whose name differs from the original's; the transform copy itself
      is a scene call and is not modelled. */
  function MirrorTransformsFixed(objectName: string, selectedNode: string): (r: bool)
    ensures var name := if objectName == "" then selectedNode else objectName;
      && (r <==> Contains(name, "_l_") || Contains(name, "_r_"))
      && (r ==> MirrorName(name) != "" && MirrorName(name) != name)
  {
    var name := if objectName == "" then selectedNode else objectName;
    var mirrorObjName := MirrorName(name);
    if mirrorObjName == "" then false
    else true
  }
}
