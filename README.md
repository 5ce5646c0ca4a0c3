# Naming helpers of a Maya rigging toolkit, in Dafny

The toolkit is a set of Python modules that drive Autodesk Maya through its
command and API layers. Almost everything it does is a scene call; what can be
stated exactly is its layer of naming conventions and string helpers:

- `maya_utils/object_utils.py`: flattening nested arguments, nice names (`:`
  becomes `_`), the coordinate-space and node-type lookups, wrapping and
  unwrapping singletons, the walk up a `|`-separated DAG path in
  `get_parents`, and attribute names `node.attr`.
- `rig_utils/control_utils.py`: the `_ctrl` and `_loc` suffix tests and
  removals, `attr_str`, the controller names `name_i_ctrl`, the group names
  `curve_grp`, locator names made from component selections such as
  `pSphere1.vtx[3]`, and the left/right name swap of `mirror_transforms`.

Layout:

- `wrappers.dfy` (`Wrappers`): `Result`; an `Err` is a raised exception.
- `strings.dfy` (`Strings`): the Python string built-ins the helpers use
  (`in`, `find`, `rfind`, `partition`, `rpartition`, `split`, `join`,
  `replace`, `str(int)`, `list.reverse`), each with the facts the helpers need.
- `object_utils.dfy` (`ObjectUtils`): the helpers of `object_utils.py`.
  Python's dynamically typed arguments are the datatype `Value`
  (`Str`, `List`, `Tuple`, or an opaque `Atom`). The DAG walk is the method
  `GetParents`, with the same nested loops and `break`; the host supplies the
  parent count and the full path names as parameters.
- `control_utils.dfy` (`ControlUtils`): the helpers of `control_utils.py`.
  `CreateControls` and `CreateLocators` are the naming loops of
  `create_controls` and `create_locators`; what they would hand to the scene
  (names, locator shape names, snap flags) is their result.

## Model

| member | source | states |
|---|---|---|
| Strings.Contains | rig_utils/control_utils.py:113 | Python `sub in s`; its meaning, an occurrence at some offset, is stated by `Strings.ContainsIff` |
| Strings.ContainsIff | rig_utils/control_utils.py:113 | `sub in s` holds exactly when `sub` occurs at some offset |
| Strings.Find | rig_utils/control_utils.py:80 | `str.find`: -1 or an offset where the pattern occurs, with no occurrence before it |
| Strings.RFind | rig_utils/control_utils.py:125 | `str.rfind`: -1 or an offset where the pattern occurs, with no occurrence after it |
| Strings.Partition | rig_utils/control_utils.py:80 | `partition`: the three parts concatenate to the input; the middle is the separator at its first occurrence, or the result is `(s, "", "")` when it does not occur |
| Strings.PartitionFirst | rig_utils/control_utils.py:80 | `partition` on a one-character separator cuts at its first occurrence |
| Strings.RPartition | rig_utils/control_utils.py:125 | `rpartition`: the three parts concatenate to the input; the middle is the separator at its last occurrence, or the result is `("", "", s)` when it does not occur |
| Strings.Split | maya_utils/object_utils.py:1826 | `split` on one character: at least one piece, and no piece holds the separator |
| Strings.Join | maya_utils/object_utils.py:396 | `sep.join(parts)`; its behaviour is stated by `Strings.JoinSplit`, `Strings.SplitJoin` and `Strings.JoinSplitSubst` |
| Strings.JoinSplit | maya_utils/object_utils.py:1826 | joining the pieces of a split with the same character gives the string back |
| Strings.SplitJoin | maya_utils/object_utils.py:1826 | splitting a join of pieces free of the separator gives the pieces back |
| Strings.JoinSplitSubst | maya_utils/object_utils.py:396 | joining the pieces of a split on `c` with `d` substitutes `d` for every `c` and keeps every other character |
| Strings.Replace | rig_utils/control_utils.py:57-60 | `str.replace`, non-overlapping, left to right; its value is stated by `Strings.ReplaceFirst` and `Strings.ReplaceAbsent` |
| Strings.ReplaceFirst | rig_utils/control_utils.py:57-60 | `replace` keeps the text before the first occurrence, swaps that occurrence, and carries on after it |
| Strings.ReplaceAbsent | rig_utils/control_utils.py:57-60 | without an occurrence, `replace` changes nothing |
| Strings.ReplaceChanges | rig_utils/control_utils.py:57-60 | replacing a contained pattern by a different one of the same length changes the string |
| Strings.NatToString | rig_utils/control_utils.py:396 | `str(n)`: at least one character, all decimal digits, beginning with `0` exactly when `n` is 0, and then just `0` |
| Strings.DecimalRoundTrip | rig_utils/control_utils.py:396 | the digits of `str(n)` read as a decimal number have the value `n` |
| Strings.NatToStringInjective | rig_utils/control_utils.py:396 | `str` of naturals is injective |
| Strings.DeleteChars | rig_utils/control_utils.py:83 | `re_brackets.sub`: no deleted character is left, and the result is no longer than the input; its value is stated by `Strings.DeleteCharsAppend` and `Strings.DeleteCharsSingle` |
| Strings.DeleteCharsAppend | rig_utils/control_utils.py:83 | deleting from a concatenation is deleting from each part, so the kept characters stay in order |
| Strings.DeleteCharsSingle | rig_utils/control_utils.py:83 | one character is deleted exactly when it is one of those removed, and otherwise kept |
| Strings.DeleteCharsNone | rig_utils/control_utils.py:83 | a string holding none of the removed characters is left as it is |
| Strings.Reverse | maya_utils/object_utils.py:833 | `list.reverse`; its element order is stated by `Strings.ReverseAt` |
| Strings.ReverseAt | maya_utils/object_utils.py:833 | the reversed list has the same length, with element `k` taken from position `n-1-k` |
| ObjectUtils.Flatten | maya_utils/object_utils.py:85-96 | no element of the result is a list or tuple |
| ObjectUtils.FlattenAppend | maya_utils/object_utils.py:85-96 | flatten distributes over concatenation |
| ObjectUtils.FlattenFlat | maya_utils/object_utils.py:85-96 | a sequence without nested lists or tuples comes back unchanged |
| ObjectUtils.FlattenIdempotent | maya_utils/object_utils.py:85-96 | flattening twice is flattening once |
| ObjectUtils.FlattenNestedFront | maya_utils/object_utils.py:91-94 | a nested list or tuple is replaced by its own flattening, in place |
| ObjectUtils.FlattenKeepsAtoms | maya_utils/object_utils.py:91-96 | a string or other atom is kept whole, at its place between the flattenings of what precedes and follows it |
| ObjectUtils.CompareArrayLengths | maya_utils/object_utils.py:119-126 | `compare_array_lengths`; its truth condition and symmetry are stated by `ObjectUtils.CompareArrayLengthsSymmetric` |
| ObjectUtils.CompareArrayLengthsSymmetric | maya_utils/object_utils.py:119-126 | true exactly when the lengths are equal; symmetric |
| ObjectUtils.ConvertListToStr | maya_utils/object_utils.py:841-849 | `convert_list_to_str`; stated by `ObjectUtils.ConvertListToStrSingletons` |
| ObjectUtils.ConvertStrToList | maya_utils/object_utils.py:852-860 | `convert_str_to_list`; stated by `ObjectUtils.ConvertStrToListSingletons` |
| ObjectUtils.ConvertListToStrSingletons | maya_utils/object_utils.py:841-849 | a one-element list or tuple is unwrapped; anything else, strings included, is returned unchanged |
| ObjectUtils.ConvertStrToListSingletons | maya_utils/object_utils.py:852-860 | only a one-character string is wrapped in a tuple; anything else is returned unchanged |
| ObjectUtils.ConvertRoundTrip | maya_utils/object_utils.py:841-860 | unwrapping after wrapping is unwrapping; a one-character string comes back |
| ObjectUtils.ConvertRoundTripTuple | maya_utils/object_utils.py:841-860 | a one-character string in a one-element tuple comes back after unwrapping and wrapping |
| ObjectUtils.GetNiceName | maya_utils/object_utils.py:390-396 | same length as the input; each `:` becomes `_` and every other character is kept |
| ObjectUtils.NiceNameHasNoColon | maya_utils/object_utils.py:390-396 | the nice name holds no `:` |
| ObjectUtils.NiceNameIdempotent | maya_utils/object_utils.py:390-396 | taking the nice name twice is taking it once |
| ObjectUtils.NiceNameUnchanged | maya_utils/object_utils.py:390-396 | a name without `:` is unchanged |
| ObjectUtils.GetKSpace | maya_utils/object_utils.py:399-412 | succeeds exactly for `world`, `object`, `transform`; otherwise raises with the message `[GetKSpace] :: <space>, is invalid.` |
| ObjectUtils.GetKSpaceRoundTrip | maya_utils/object_utils.py:399-412 | each space's name looks up that space, and only that name does |
| ObjectUtils.DictOfKeys | maya_utils/object_utils.py:41-69 | the keys of a dictionary display are exactly the keys listed in it |
| ObjectUtils.DictOfDistinct | maya_utils/object_utils.py:41-69 | with distinct keys the display has one entry per listed pair, each mapping to its listed value |
| ObjectUtils.NodeTypes | maya_utils/object_utils.py:41-69 | the `node_types` dictionary; its keys and values are stated by `ObjectUtils.TypeExists`, `ObjectUtils.NodeTypesTable` and `ObjectUtils.NodeTypeConstant` |
| ObjectUtils.NodeTypesTable | maya_utils/object_utils.py:41-69 | `node_types` has 27 keys: no listed name repeats |
| ObjectUtils.NodeTypeConstant | maya_utils/object_utils.py:41-69 | each listed name maps to its listed constant |
| ObjectUtils.TypeExists | maya_utils/object_utils.py:793-799 | `type_exists` holds exactly for the 27 names listed in `node_types` |
| ObjectUtils.TakeThrough | maya_utils/object_utils.py:834-837 | the inner loop with its `break`; stated by `ObjectUtils.TakeThroughAbsent` and `ObjectUtils.TakeThroughAt` |
| ObjectUtils.TakeThroughAbsent | maya_utils/object_utils.py:834-837 | when the stop name is absent the inner loop keeps every component |
| ObjectUtils.TakeThroughAt | maya_utils/object_utils.py:834-837 | the inner loop keeps the components up to and including the first one equal to the stop name |
| ObjectUtils.PathParents | maya_utils/object_utils.py:832-837 | what one path contributes; stated by `ObjectUtils.PathParentsShape` |
| ObjectUtils.PathParentsShape | maya_utils/object_utils.py:832-837 | one path gives the `|`-components in reverse order, cut just after the first one equal to `stop_at`, or all of them when it is absent |
| ObjectUtils.AllPathParents | maya_utils/object_utils.py:830-837 | what the outer loop collects: each path's contribution, stated by `ObjectUtils.PathParentsShape`, in path order; `ObjectUtils.GetParents` is proved equal to it |
| ObjectUtils.GetParents | maya_utils/object_utils.py:822-838 | no parents gives `()`; otherwise the paths' reversed, cut component lists one after another |
| ObjectUtils.AttrName | maya_utils/object_utils.py:1795-1804 | gives `obj.attr` unless the check is asked for and the attribute does not exist, in which case it raises with the source's message |
| ObjectUtils.AttrSplit | maya_utils/object_utils.py:1820-1826 | at least one piece, none holding a dot, and joining them with dots gives the name back |
| ObjectUtils.AttrNameSplitRoundTrip | maya_utils/object_utils.py:1820-1826 | splitting an attribute name built from dot-free parts gives the parts back |
| ObjectUtils.AttrLeaf | maya_utils/object_utils.py:1682 | `rpartition('.')[-1]`: dot-free; the whole item when it has no dot; otherwise what follows its last dot |
| ObjectUtils.SplitAttrNames | maya_utils/object_utils.py:1677-1682 | one result per item, each the item's text after its last `.` |
| ObjectUtils.SplitAttrNamesOfAttrName | maya_utils/object_utils.py:1677-1682 | splitting an attribute name built by `attr_name` gives back the attribute |
| ControlUtils.SuffixSpec | rig_utils/control_utils.py:106-146 | a suffix test is containment at any offset; removal gives `""` when absent, else the text before the last occurrence, after which the suffix does not recur |
| ControlUtils.SuffixRoundTrip | rig_utils/control_utils.py:106-146 | appending a suffix makes the test pass and removal give the stem back |
| ControlUtils.CheckLocatorSuffixName | rig_utils/control_utils.py:106-115 | holds exactly when `_loc` occurs at some offset of the name |
| ControlUtils.RemoveLocatorSuffixName | rig_utils/control_utils.py:118-125 | `""` when there is no `_loc`; otherwise the text before a `_loc` after which no `_loc` follows, that is the last one |
| ControlUtils.CheckControlSuffixName | rig_utils/control_utils.py:128-137 | holds exactly when `_ctrl` occurs at some offset of the name |
| ControlUtils.RemoveControlSuffixName | rig_utils/control_utils.py:140-146 | `""` when there is no `_ctrl`; otherwise the text before a `_ctrl` after which no `_ctrl` follows, that is the last one |
| ControlUtils.LocatorSuffixRoundTrip | rig_utils/control_utils.py:106-125 | removing `_loc` from `p + "_loc"` gives `p`, for every `p` |
| ControlUtils.ControlSuffixRoundTrip | rig_utils/control_utils.py:128-146 | removing `_ctrl` from `p + "_ctrl"` gives `p`, for every `p` |
| ControlUtils.SuffixTestUnanchored | rig_utils/control_utils.py:106-115 | `_loc` anywhere in a name makes it a locator, so `x_location` is one |
| ControlUtils.AttrStr | rig_utils/control_utils.py:193-200 | `'{}.{}'.format(ctrl, attr)`; stated by `ControlUtils.AttrStrSplit` and `ControlUtils.AttrStrAgrees` |
| ControlUtils.AttrStrSplit | rig_utils/control_utils.py:193-200 | `attr_split` takes the name apart again when neither part holds a dot |
| ControlUtils.AttrStrAgrees | rig_utils/control_utils.py:193-200 | `attr_str` builds what `attr_name` builds without the check |
| ControlUtils.ControlName | rig_utils/control_utils.py:396 | each generated name passes the control test, and removing the suffix leaves `name_i` |
| ControlUtils.CreateControls | rig_utils/control_utils.py:394-396 | one name per object, the i-th being `name_i_ctrl` |
| ControlUtils.ControlNamesDistinct | rig_utils/control_utils.py:396 | different indices give different names |
| ControlUtils.CreateControlsNamesDistinct | rig_utils/control_utils.py:394-396 | the generated names are pairwise distinct |
| ControlUtils.GroupNames | rig_utils/control_utils.py:367 | one group name per suffix in order, each the curve name, `_`, and the suffix |
| ControlUtils.DefaultGroupName | rig_utils/control_utils.py:351-367 | with the default suffixes the one group is `curve_grp` |
| ControlUtils.LocatorBaseName | rig_utils/control_utils.py:79-87 | the name before the suffix; stated by `ControlUtils.LocatorNameOfComponent` and `ControlUtils.LocatorNameOfNode` |
| ControlUtils.LocatorName | rig_utils/control_utils.py:88 | every locator name passes the locator test, and removing the suffix gives the name it was built from |
| ControlUtils.CreateLocators | rig_utils/control_utils.py:74-91 | one plan per selected item, with its locator name, shape name `<locator>Shape`, snap target, and matrix snap exactly when there is no `.`; returns True |
| ControlUtils.LocatorNameOfComponent | rig_utils/control_utils.py:79-88 | `node.comp` with a dot-free node gives `node_comp_loc` with the brackets taken out of `comp`; a bracket-free `comp` is kept |
| ControlUtils.BracketsRemoved | rig_utils/control_utils.py:83 | bracket removal on `kind[digits]`, both parts bracket-free, gives `kind` followed by `digits` |
| ControlUtils.LocatorNameOfIndexedComponent | rig_utils/control_utils.py:79-88 | an indexed component `node.kind[i]` such as `pSphere1.vtx[3]` gives `node_kindi_loc`, here `pSphere1_vtx3_loc` |
| ControlUtils.LocatorNameOfNode | rig_utils/control_utils.py:84-88 | a dot-free selection gives `sl_loc` |
| ControlUtils.MirrorName | rig_utils/control_utils.py:54-60 | `""` exactly when the name has neither `_l_` nor `_r_`; otherwise a name of the same length that differs from it |
| ControlUtils.MirrorNameLeft | rig_utils/control_utils.py:57-58 | without `_r_`, the first `_l_` becomes `_r_`, the text before it is kept, and the rest is swapped the same way |
| ControlUtils.MirrorNameRight | rig_utils/control_utils.py:59-60 | with `_r_`, the first `_r_` becomes `_l_`, the text before it (any `_l_` included) is kept, and the rest is swapped the same way |
| ControlUtils.MirrorNameBothTokens | rig_utils/control_utils.py:57-60 | a name holding `_l_` and then `_r_` keeps its `_l_`: `a_l_b_r_c` becomes `a_l_b_l_c` |
| ControlUtils.MirrorTransforms | rig_utils/control_utils.py:48-62 | as written, returns False for every object |
| ControlUtils.MirrorTransformsIgnoresPartner | rig_utils/control_utils.py:56-62 | a name with a side token has a real mirror name and is still not mirrored; `arm_l_ctrl` is one |
| ControlUtils.MirrorTransformsFixed | rig_utils/control_utils.py:48-62 | goes on to mirror exactly when the name has `_l_` or `_r_`, and then onto a different, non-empty name |

## Left out

- Every Maya command and API call (`cmds.*`, `OpenMaya.*`): scene queries, DAG iteration, plugs, renames, `xform`, node creation. Their answers are parameters (`parentCount`, `fullPathNames`, `objExists`, `selection`, `selectedNode`, the renamed curve name) or the calls are not modelled.
- `ScriptUtil` and the pointer helpers: wrappers over foreign memory.
- `selection_order` (depends on a host preference) and `vprint` (output).
- `Item.filter_array_by_regex`: it relies on Python's regular expressions. `re_brackets` is modelled only as removing the characters `[` and `]`.
- `mirror_object`, the matrix mirroring and the transform copy at the end of `mirror_transforms`: floating-point transforms in the scene.
- `create_controller_shape` and `parent_curve_shapes`: curve data read from files and scene reparenting. Of `create_control` only the group names are modelled; the name it asks `cmds.rename` for (`name`, or the shape name when `name` is empty) and the name the scene gives back are not.
- `save_controller_shape`, `get_controller_data_file`, `find_controller_shapes`: JSON file I/O.
- `rig_modules/singleton_v0000.py` and `rig_modules/PreBuild_v0000.py`: only scene side effects, and they depend on modules that are not part of this model.
- The module registry and blueprint assembly are not part of this model.
- Python 2's `str` (bytes) and `unicode` are not told apart: strings are sequences of characters. Where a length matters, as in `convert_str_to_list` (maya_utils/object_utils.py:858), a byte string holding one non-ASCII character in UTF-8 has length above 1 and is not wrapped in Python 2, but the model, counting characters, wraps it.
- Default arguments are not modelled: every parameter is explicit. The defaults are `object_name=''` of `get_nice_name`, `space='world'` of `get_k_space`, `object_name=None` and `stop_at=''` of `get_parents`, `check=False` of `attr_name`, `name=''` and `groups=('grp',)` of `create_control` (the last is `DefaultGroups`), `object_name=""` of `mirror_transforms`, and `array_items=()` of `split_attr_names`.
- ObjectUtils.GetKSpace: returns the space as an enumeration, not the host's integer `kSpace` constants, which are not visible.
- ObjectUtils.NodeTypes: maps names to an enumeration of the `OpenMaya.MFn` constants, not to their integer values; nothing is stated about those values.
- ObjectUtils.Flatten: the source descends into any non-string iterable; the model has only lists and tuples, so generators, sets and dictionaries are not covered, and the result is a sequence rather than a lazy generator.
- ObjectUtils.GetParents: the object name is not resolved to a DAG node; the host's paths are given.
- ControlUtils.CreateControls: the controller built for each name by `create_control_at_transform` is not modelled, only the names.

## Findings

| source | as written | input that shows it | evidently intended | confidence | as-written member | corrected member |
|---|---|---|---|---|---|---|
| rig_utils/control_utils.py:61 | `mirror_transforms` compares the mirror name with itself, which always holds, so it returns False before mirroring anything | `arm_l_ctrl`: it holds `_l_`, so a non-empty mirror name different from it is computed, and it still returns False | give up (False) only when no mirror name was found, that is when it is empty, and otherwise mirror onto it and return True | not executed | ControlUtils.MirrorTransforms, ControlUtils.MirrorTransformsIgnoresPartner | ControlUtils.MirrorTransformsFixed |
