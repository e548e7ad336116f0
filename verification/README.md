# The algorithms of the HDF5 handler, modelled in Dafny

The handler in `opendap/hdf5_handler` serves HDF5 files over DAP. Around its library
calls it has a number of real algorithms. This project models them with the HDF5 and
libdap calls replaced by their inputs, and proves what they are relied upon to do.
`dafny verify dfyconfig.toml` checks all files.

The methods keep the loops, the erasing while walking, the in-place updates and the
error exits of the C++ code. Each is proved against a specification function or
predicate; the lemmas then prove what the handler needs of that specification, and what
its values are in terms of the inputs alone (lemmas named `...Is`, for the most part).

**Hyperslabs** (`MixedRadix`, `Hyperslab`). Turning a constraint into offset, step and
count; the odometer that flattens a selection of any rank; the two ways of reading.
`LinearizeMultiDimensions` and `Read` say of every point start + d * stride where it goes.
The odometer turns dimension 0 fastest, whereas DAP arrays are row-major:
`PicksRowMajorExactly` says for which selections the order of an array of structures
is nevertheless right.

**The DAS walk** (`PathFinder`, `Hdf5Graph`, `DasTraversal`). A file is a finite graph of
hard links, possibly cyclic; link names are distinct in a group and have no slashes, and
reference counts are at least the number of hard links, plus one for the root. The walk
records only objects with a count above one, and still opens each reachable group once.
The field `das` of the model is the log of entries in the order they are written: one for
each hard link of a reachable group to a group or dataset, depth first (`BuildDas`).

**Names of objects** (`UniqueNames`, `NameClash`, `ObjectNames`). Numbered names, CF
characters and the clash passes over all lists of a file, with one shared set.

**Names of dimensions** (`FakeDims`; `Eos5Condense`, `Eos5Lists`, `Eos5Naming`,
`Eos5Metadata`, `Eos5Apart`, `Eos5Progress`, `Eos5VarDims`, `Eos5Group`). Dimensions
without names share made-up ones by size across variables, but must have different names
inside a variable (CF Conventions, section 2.4). For HDF-EOS5 files names come from the
metadata, by size. `Fit` and `VarInvariant` are the invariants that hold after every step.

`NameGroup` is the whole run for one HDF-EOS5 group: its dimension list is condensed,
extended for its variables and recorded; then each variable is named, by its metadata and
after that by size. Three conditions describe it:

- `AllApart` is when the names of a variable come out distinct. It looks at the sizes of
  the variable, its metadata names and the recorded maps: for each size, let the dimensions
  that metadata does not name be left; none may be left, or one and the name of the size or
  the first other name is not a metadata name, or two and neither is. `ApartStays` proves
  that naming other variables in between does not matter.
- `Tidy` is a condition on the maps of a group under which no naming step can fail. Every
  call keeps it.
- `SoundLists` is a condition on the metadata alone, which makes the recorded maps tidy:
  declared names, distinct after condensing, with a short form and not like made-up ones,
  and a numbered form of a listed name, where it is listed too, has the size of that name.

**Coordinate variables** (`CoordVars`, `Eos5CoordVars`). Moving variables to the list of
coordinate variables, making up missing ones, finding the one field that may stand for
a dimension, and splitting 64-bit sounding identifiers (`SoundingWindows`).

**Texts** (`Escape`, `StringAttrs`). Escaping of attribute text and its decoder; packing
of string attributes into one byte vector and slicing them apart again.

**Computed arrays** (`DerivedArrays`). Index variables and latitude/longitude of a
geographic grid, restricted by a constraint.

`Outcome`, `Lists`, `KeyOrder` and `Numerals` hold what several modules need: results and
options, distinct sequences, the key order of `std::set` and `std::map`, printed numbers.

Where the code differs from what its comments or its purpose suggest, the model follows
the code:

- The elements of an array of structures are taken in odometer order, not in row-major
  order (`HDF5Array.cc:111-137`, `714-788`).
- For null-padded strings `trim_string` strips trailing `'0'` digits, not NULs
  (`HDF5CFUtil.cc:141`). `TrimmedExactly` and `NullPadReachesDasExactly` say when the text
  is right all the same; `NullPadFails` gives inputs for which it is not.
- Signed bytes are to become 16-bit integers, but the hyperslab read waits for the type
  name `Int8`, which `get_dap_type` does not give (`HDF5Array.cc:663`, `h5get.cc:266-271`).
  `ReadInteger` proves that they are converted exactly when the whole array is selected.
- A stride of zero with another start or stop passes the check of `format_constraint` and
  is divided by (`HDF5BaseArray.cc:82-97`).
- Without a NUL, `trim_string` records the full section size even for a shorter last
  section (`HDF5CFUtil.cc:163-178`); `SizesRightExactly` says when this matters.
- `get_CF_string` compares `isdigit` with `true`, which depends on the C library; the
  model takes the outcome as a parameter (`HDF5CF.cc:1082`).
- The branches that resolve a clash of a made-up dimension name insert the resolved name
  twice and so always throw (`HDF5CF.cc:1149-1158`, `1192-1201`).
- `Check_All_DimNames` does not look at the names the variable uses already
  (`HDFEOS5CF.cc:1069-1084`), so the names of a variable can repeat. For a variable without
  metadata this happens exactly when three dimensions have one size, the third repeating
  the second; in general it happens exactly when `AllApart` fails. With names a, b and d
  recorded for one size and d in the metadata, three such dimensions become d, a and b;
  with b not recorded they become d, a and d (`ThreeOfOneSize`).
- An undeclared dimension name is accepted when it equals one that was just made up
  (`HDFEOS5CF.cc:314-326`).

## Model

| member | source | states |
|---|---|---|
| `Hyperslab.CountIsExact` | opendap/hdf5_handler/HDF5Array.cc:92 | the element count of a slice is exactly the number of start, start + stride, ... that do not pass stop |
| `Hyperslab.FormatConstraint` | opendap/hdf5_handler/HDF5Array.cc:71-109 | throws exactly for a malformed slice; else offset, step and count describe the slices and the result is the number of selected elements |
| `Hyperslab.LinearIndex` | opendap/hdf5_handler/HDF5Array.cc:749-755 | the inner loop, which runs over the dimensions backwards, yields the row-major offset of the point start + (counter - 1) * stride |
| `Hyperslab.Advance` | opendap/hdf5_handler/HDF5Array.cc:774-783 | the carry loop turns the counters into those of the successor, dimension 0 fastest, wrapping after the last |
| `Hyperslab.TotalSize` | opendap/hdf5_handler/HDF5Array.cc:717-729 | the running product is the number of elements of the array |
| `Hyperslab.LinearizeMultiDimensions` | opendap/hdf5_handler/HDF5Array.cc:714-788 | for all coordinates d below the counts, the point start + d * stride is picked at the step that the odometer spells as d; any rank, any buffer contents; for an in-bounds selection no offset is picked twice |
| `MixedRadix.TickIsSuccessor` | opendap/hdf5_handler/HDF5Array.cc:774-783 | advancing the counters is adding one to the number they spell |
| `MixedRadix.TickCarries` | opendap/hdf5_handler/HDF5Array.cc:774-783 | advancing resets the saturated leading dimensions, increments the next one and keeps the rest |
| `MixedRadix.OdometerDigitsOfValue` | opendap/hdf5_handler/HDF5Array.cc:746-784 | every coordinate vector of the selection is reached, at exactly one step number below the total |
| `MixedRadix.OdometerValueOfDigits` | opendap/hdf5_handler/HDF5Array.cc:746-784 | different step numbers stand for different coordinate vectors |
| `MixedRadix.RowMajorDigitsOfIndex` | opendap/hdf5_handler/HDF5Array.cc:749-755 | row-major offsets of points in the array are below its size and determine the point |
| `MixedRadix.RowMajorFirstDecides` | opendap/hdf5_handler/HDF5Array.cc:749-755 | row-major order: of two points the one that is smaller in the first dimension in which they differ comes first |
| `MixedRadix.OdometerLastDecides` | opendap/hdf5_handler/HDF5Array.cc:774-783 | odometer order: of two coordinate vectors the one that is smaller in the last dimension in which they differ comes first |
| `Hyperslab.PickOfPoint` | opendap/hdf5_handler/HDF5Array.cc:746-784 | the point start + d * stride is the pick at the step that the odometer spells as d |
| `Hyperslab.SlabOfPoint` | opendap/hdf5_handler/HDF5Array.cc:655-659 | in a hyperslab that point is the element at the row-major offset of d among the counts |
| `Hyperslab.PointOfSlices` | opendap/hdf5_handler/HDF5Array.cc:71-109 | the same in terms of the constraint: all points start + d * stride that do not pass stop, and where they come in either order |
| `Hyperslab.PicksInRange` | opendap/hdf5_handler/HDF5Array.cc:714-788 | every pick of an in-bounds selection lies in [0, total) |
| `Hyperslab.PicksDistinct` | opendap/hdf5_handler/HDF5Array.cc:714-788 | no offset is picked twice |
| `Hyperslab.PicksBijection` | opendap/hdf5_handler/HDF5Array.cc:714-788 | the picks are a bijection onto the selected points: in range, pairwise distinct, and every selected point occurs |
| `Hyperslab.OrdersAgree` | opendap/hdf5_handler/HDF5Array.cc:746-784 | with at most one long dimension both digit orders coincide |
| `Hyperslab.OrdersDiffer` | opendap/hdf5_handler/HDF5Array.cc:746-784 | with two long dimensions there is a step at which the two digit orders differ |
| `Hyperslab.PicksRowMajorExactly` | opendap/hdf5_handler/HDF5Array.cc:111-138 | the picks come in the row-major order of a DAP array if and only if at most one dimension of the selection is longer than one |
| `Hyperslab.FullSelection` | opendap/hdf5_handler/HDF5Array.cc:613-631 | the number of selected elements equals that of the array if and only if every dimension starts at 0, has its full count and, when longer than one, stride 1 |
| `Hyperslab.FullSlabIsIdentity` | opendap/hdf5_handler/HDF5Array.cc:631-654 | a selection of full size visits element k at step k |
| `Hyperslab.Read` | opendap/hdf5_handler/HDF5Array.cc:613-659 | both branches, the whole-dataset short cut and the hyperslab read: for all d with start + d * stride up to stop, the element at the row-major offset of d is the one of the file at that point; throws exactly for a malformed constraint |
| `Hyperslab.Widen` | opendap/hdf5_handler/HDF5Array.cc:639-645 | the loop gives every byte its value as a signed one |
| `Hyperslab.ReadInteger` | opendap/hdf5_handler/HDF5Array.cc:631-674 | for an integer type: if the whole array is selected, bytes of a signed type are handed on as 16-bit integers, those from 128 on less 256; anything else is handed on as read |
| `Hyperslab.SignedBytesFail` | opendap/hdf5_handler/HDF5Array.cc:655-673 | the first element of the signed bytes -56 and 0: a well-formed constraint, for which the byte 200 is handed on instead of -56 |
| `Hyperslab.SetVec` | opendap/hdf5_handler/HDF5Array.cc:132-136 | structure i of the result is the one that picks[i] names |
| `Hyperslab.ReadArrayOfStructure` | opendap/hdf5_handler/HDF5Array.cc:111-138 | for all d with start + d * stride up to stop, the structure at the odometer step of d is the one of the file at that point; this is the row-major hyperslab when at most one dimension is long |
| `Hyperslab.PicksReadTheSlab` | opendap/hdf5_handler/HDF5Array.cc:111-138 | with at most one long dimension, reading by picks is reading the hyperslab |
| `PathFinder.HDF5PathFinder.constructor` | opendap/hdf5_handler/HDF5PathFinder.cc:40-42 | nothing has been met |
| `PathFinder.HDF5PathFinder.Visited` | opendap/hdf5_handler/HDF5PathFinder.cc:64-72 | answers whether the id has a non-empty name; a missing id gains an empty entry, which does not count as a visit |
| `PathFinder.HDF5PathFinder.Add` | opendap/hdf5_handler/HDF5PathFinder.cc:50-61 | records the name exactly when the id was not met before; a recorded name never changes |
| `PathFinder.HDF5PathFinder.GetName` | opendap/hdf5_handler/HDF5PathFinder.cc:74-77 | the recorded name, or the empty one, which it inserts |
| `Hdf5Graph.ChildResolves` | opendap/hdf5_handler/h5das.cc:137-139 | opening a child by parent path + link name (+ slash) opens the object the link leads to |
| `Hdf5Graph.CyclesAreWellFormed` | opendap/hdf5_handler/h5das.cc:169-189 | the assumption on reference counts is met by a group that contains itself |
| `Hdf5Graph.LinksReach` | opendap/hdf5_handler/h5das.cc:60-272 | the root can be reached, and whatever a hard link of a group that can be reached leads to |
| `DasTraversal.DasBuilder.GetHardlink` | opendap/hdf5_handler/h5das.cc:824-857 | an id exactly for an object with reference count above one that was met; otherwise records the first path of such an object, and nothing for an unshared one |
| `DasTraversal.MetAgainIsShared` | opendap/hdf5_handler/h5das.cc:169-175 | the graph argument: an object reached again over another hard link has a reference count above one, so recording only those loses no cycle |
| `DasTraversal.NewGroupIsUntouched` | opendap/hdf5_handler/h5das.cc:169-175 | no link of a group met for the first time has been followed |
| `DasTraversal.TableSnoc` | opendap/hdf5_handler/h5das.cc:835-851 | after each object, the path table holds exactly the first paths of the shared objects met so far |
| `DasTraversal.DasBuilder.AddEntry` | opendap/hdf5_handler/h5das.cc:164-189 | HDF5_HARDLINK is written exactly when the object was met before, with its first-visited path; the path of the entry is that of its group, the link name and, for a group, a slash |
| `DasTraversal.DasBuilder.FollowLink` | opendap/hdf5_handler/h5das.cc:110-264 | a soft link or named datatype adds nothing; every other link is followed exactly once |
| `DasTraversal.DasBuilder.FollowGroup` | opendap/hdf5_handler/h5das.cc:128-195 | a group met before is not expanded again; a new one is, completely |
| `DasTraversal.DasBuilder.DepthFirst` | opendap/hdf5_handler/h5das.cc:60-272 | terminates on every finite hard-link graph, cyclic or not; every group it opens is finished; the table and the entries stay consistent throughout |
| `DasTraversal.OpenedOnce` | opendap/hdf5_handler/h5das.cc:172-175 | no group is expanded twice, at any point of the walk |
| `DasTraversal.HardlinkNamesFirstVisit` | opendap/hdf5_handler/h5das.cc:176-189 | an entry is a hard link if and only if its object is the root or has an earlier entry; the path it names resolves to the same object and is the earliest one |
| `DasTraversal.ReachableIsOpened` | opendap/hdf5_handler/h5das.cc:60-272 | when all links of open groups are followed, every group on a path from the root is open |
| `DasTraversal.WalkIsExact` | opendap/hdf5_handler/h5das.cc:60-272 | a finished walk has opened exactly the reachable groups, each once, and followed exactly their links to groups and datasets |
| `DasTraversal.EntriesAreLinks` | opendap/hdf5_handler/h5das.cc:96-264 | every hard link of a reachable group to a group or dataset has exactly one entry, for the object it leads to; soft links and named datatypes have none; the links of a group come in order |
| `DasTraversal.EntryPath` | opendap/hdf5_handler/h5das.cc:135-205 | the path of an entry is the path under which its group was opened, then the link name, then a slash if it is a group |
| `DasTraversal.InnerGroupsFirst` | opendap/hdf5_handler/h5das.cc:172-175 | depth first: between two entries of one group there are only entries of groups opened since the first of them |
| `DasTraversal.StartOfWalk` | opendap/hdf5_handler/h5das.cc:700-704 | after registering the root the invariants hold, whether or not the root is linked to |
| `DasTraversal.BuildDas` | opendap/hdf5_handler/h5das.cc:683-704 | a whole request: exactly one entry for each hard link of a reachable group to a group or dataset, none for soft links and named datatypes, depth first in the order of the links; opens exactly the reachable groups, each once |
| `UniqueNames.NumberedInjective` | opendap/hdf5_handler/HDF5CFUtil.cc:190-194 | different indices give different names |
| `Numerals.NumeralDigits` | opendap/hdf5_handler/HDF5CFUtil.cc:192-194 | a number is written with the digits 0 to 9 and a to f, most significant first |
| `UniqueNames.RunIsShort` | opendap/hdf5_handler/HDF5CFUtil.cc:188-203 | pigeonhole: no more indices in a row can be taken than the set has names |
| `UniqueNames.GenUniqueName` | opendap/hdf5_handler/HDF5CFUtil.cc:188-203 | terminates; the base followed by the decimal digits of the least free index from the given one on, which is at most the start plus the size of the set; exactly that name is added |
| `UniqueNames.UniqueNameIs` | opendap/hdf5_handler/HDF5CFUtil.cc:188-203 | counting from 1: the base with the first number that is not taken |
| `NameClash.GetCFString` | opendap/hdf5_handler/HDF5CF.cc:1074-1091 | letters, digits and underscores stay at their place, every other character becomes an underscore, and at most one underscore is put in front |
| `NameClash.PlainNameStays` | opendap/hdf5_handler/HDF5CF.cc:1084-1086 | a CF name that does not begin with a digit is not changed |
| `NameClash.FindClashes` | opendap/hdf5_handler/HDF5CF.cc:1037-1045 | the set gains all names; exactly the objects whose name was taken, by the set or by an earlier object, are listed, in order |
| `NameClash.ResolveClashes` | opendap/hdf5_handler/HDF5CF.cc:1049-1054 | each listed object gets the first free numbered form of its name, given all names and all those handed out before |
| `NameClash.WriteBack` | opendap/hdf5_handler/HDF5CF.cc:1057-1058 | only the listed objects change |
| `NameClash.HandleGeneralNameClashing` | opendap/hdf5_handler/HDF5CF.cc:1018-1060 | a name in the set, or borne by an earlier object, gets an underscore and a number, all others stay; final names are pairwise distinct and new to the set; the set gains exactly the final names, one per object |
| `NameClash.FinalNamesDistinct` | opendap/hdf5_handler/HDF5GMCF.cc:1537-1582 | the renaming rule gives pairwise distinct names, none of them in the shared set before |
| `NameClash.FinalNameIs` | opendap/hdf5_handler/HDF5CF.cc:1037-1058 | which number a clashing name gets: the first for which the name is not in the set, nor in the list, nor given to an earlier object |
| `NameClash.FinalNamesStay` | opendap/hdf5_handler/HDF5CF.cc:1037-1058 | distinct names, none of them in the set, are not changed |
| `NameClash.PassIsExact` | opendap/hdf5_handler/HDF5GMCF.cc:1537-1582 | the shared set ends as the old set plus the final names and grows by exactly one per object |
| `NameClash.FinalNamesCF` | opendap/hdf5_handler/HDF5GMCF.cc:1537-1582 | names of letters, digits and underscores stay such names |
| `ObjectNames.PassOver` | opendap/hdf5_handler/HDF5GMCF.cc:1505-1513 | one pass with the shared set renames one list and leaves the other lists alone |
| `ObjectNames.GMObjects.HandleRootGroupNameClashing` | opendap/hdf5_handler/HDF5CF.cc:960-986 | the attribute table keeps its name or gets a numbered one, then the groups are renamed; all new to the set and distinct |
| `ObjectNames.GMObjects.HandleObjNameClashing` | opendap/hdf5_handler/HDF5GMCF.cc:1488-1503 | after all passes the names of coordinate, special and ordinary variables, the attribute table and groups are pairwise distinct, the set is exactly these names, and each pass renamed by the rule |
| `ObjectNames.Flatten` | opendap/hdf5_handler/HDF5CF.cc:914-953 | each name of the list becomes what get_CF_string makes of it, so it has only CF characters; nothing else changes |
| `ObjectNames.GMObjects.MakeObjectNames` | opendap/hdf5_handler/HDF5GMCF.cc:1447-1503 | flattening and clash resolution together: every final name is the renaming rule applied to the flattened original names, pass by pass; all names distinct and all of them CF names; distinct plain names stay as they are |
| `ObjectNames.AllFinalNamesCF` | opendap/hdf5_handler/HDF5GMCF.cc:1537-1582 | a pass over CF names yields CF names |
| `ObjectNames.CleanNamesStay` | opendap/hdf5_handler/HDF5GMCF.cc:1447-1503 | names of letters, digits and underscores, not beginning with a digit and different over all lists, come through all passes unchanged |
| `FakeDims.FakeDimNameInjective` | opendap/hdf5_handler/HDF5CF.cc:1134-1135 | different indices give different made-up names |
| `FakeDims.File.constructor` | opendap/hdf5_handler/HDF5CF.cc:1126-1173 | a new file satisfies the invariants of the allocator |
| `FakeDims.File.InsertOneNameSizeMapElement` | opendap/hdf5_handler/HDF5CF.cc:1092-1100 | throws exactly when the name has a size already; otherwise records that size only |
| `FakeDims.File.AddOneFakeDimName` | opendap/hdf5_handler/HDF5CF.cc:1125-1173 | shares the made-up name of a known size; else makes the next one; throws exactly when that one is in use |
| `FakeDims.File.ResolveAndInsertAgain` | opendap/hdf5_handler/HDF5CF.cc:1149-1156 | the clash branch inserts its new name twice and therefore always throws |
| `FakeDims.File.AdjustDuplicateFakeDimName` | opendap/hdf5_handler/HDF5CF.cc:1177-1208 | replaces the shared name by the one after the next and leaves the shared one to other variables; throws exactly when that name is in use |
| `FakeDims.File.TakeFakeName` | opendap/hdf5_handler/HDF5GMCF.cc:773-778 | a made-up name never throws while no such name is in use; a second dimension of one size gets a name of its own |
| `FakeDims.File.NameDimension` | opendap/hdf5_handler/HDF5GMCF.cc:756-779 | one more dimension keeps the names of the variable distinct, sized and shared as Fit says, and gets a made-up name only when no unused coordinate name of its size is left |
| `FakeDims.PickCandidate` | opendap/hdf5_handler/HDF5GMCF.cc:760-771 | the first name of that size that the variable has not used, if any |
| `FakeDims.FirstUnusedAt` | opendap/hdf5_handler/HDF5GMCF.cc:760-771 | where the search stops is the first candidate of the size that is not in use |
| `FakeDims.TurnTaken` | opendap/hdf5_handler/HDF5GMCF.cc:756-779 | a dimension gets a made-up name only when the earlier dimensions of its variable have all coordinate names of its size |
| `FakeDims.TurnIs` | opendap/hdf5_handler/HDF5GMCF.cc:756-779 | which name a dimension has: the first coordinate name of its size that no earlier dimension of the variable has; FakeDim and a number only if there is none |
| `FakeDims.File.TakeCandidate` | opendap/hdf5_handler/HDF5GMCF.cc:764-767 | a coordinate name is recorded once with its size |
| `FakeDims.File.NameVariable` | opendap/hdf5_handler/HDF5GMCF.cc:756-781 | the names of one variable end pairwise distinct, each recorded with its size, coordinate names first and in order, the first made-up one of each size being the shared one; never throws |
| `FakeDims.File.AddDimNames` | opendap/hdf5_handler/HDF5GMCF.cc:745-782 | the same for every variable of a file at once: later variables disturb neither names nor sizes of earlier ones |
| `FakeDims.PathsAreGoodCandidates` | opendap/hdf5_handler/HDF5GMCF.cc:719-743 | XDim, YDim and path names cannot be mistaken for made-up names |
| `FakeDims.FitStays` | opendap/hdf5_handler/HDF5GMCF.cc:785-800 | what is known of a named variable survives growth of the maps |
| `FakeDims.FakeIsNew` | opendap/hdf5_handler/HDF5GMCF.cc:785-800 | a made-up name differs from all names of the variable so far |
| `Eos5Condense.CondenseAxis` | opendap/hdf5_handler/HDFEOS5CF.cc:266-276 | erasing while walking leaves the first entry of each size of the axis under the standard spelling, and all other entries in place |
| `Eos5Condense.CondensedKeeps` | opendap/hdf5_handler/HDFEOS5CF.cc:266-276 | condensing keeps the set of sizes of the axis and every other entry |
| `Eos5Condense.CondensedMembers` | opendap/hdf5_handler/HDFEOS5CF.cc:266-276 | what is in the condensed list: all other entries, and the sizes of the axis under its standard name |
| `Eos5Condense.AxesCommute` | opendap/hdf5_handler/HDFEOS5CF.cc:259-289 | condensing one axis does not disturb the other |
| `Eos5Condense.DistinctForAxis` | opendap/hdf5_handler/HDFEOS5CF.cc:266-276 | one condensed axis leaves distinct names if and only if the other names are distinct and the axis has at most one size |
| `Eos5Condense.CondenseDimList` | opendap/hdf5_handler/HDFEOS5CF.cc:259-289 | Xdim and Ydim are gone; XDim and YDim are there once for each size listed under either spelling; all other entries stay; the names are distinct, which recording demands, if and only if the other names are and neither axis has two sizes |
| `Eos5Lists.RenamedDistinct` | opendap/hdf5_handler/HDFEOS5CF.cc:321-326 | the names a variable ends up with are pairwise distinct |
| `Eos5Lists.RenamedIs` | opendap/hdf5_handler/HDFEOS5CF.cc:319-326 | a name that the variable has already gets an underscore and the first number that is free in the variable |
| `Eos5Lists.SizeInIs` | opendap/hdf5_handler/HDFEOS5CF.cc:304-311 | the first entry with the name gives the size |
| `Eos5Lists.AdjustVarDimInfo` | opendap/hdf5_handler/HDFEOS5CF.cc:292-344 | on success the names are distinct, each dimension has the size its original name has in the list, every (name, size) is in the new list and the old list is its prefix; throws exactly when a name is neither listed nor just made up |
| `Eos5Lists.LookupIsKnown` | opendap/hdf5_handler/HDFEOS5CF.cc:304-316 | the search in the growing list succeeds exactly for listed names and names just made up |
| `Eos5Lists.SameSizeAsNamesake` | opendap/hdf5_handler/HDFEOS5CF.cc:306-313 | an unlisted name that is accepted stands for the size of the dimension that brought it in |
| `Eos5Lists.UndeclaredNameAccepted` | opendap/hdf5_handler/HDFEOS5CF.cc:302-342 | a concrete variable whose undeclared dimension name is accepted because it coincides with a made-up one |
| `Eos5Lists.AdjustGroup` | opendap/hdf5_handler/HDFEOS5CF.cc:219-221 | throws exactly when a name is neither declared nor made up for an earlier dimension or variable; otherwise every variable has distinct names and the declared sizes, and the list holds the declared names and those made up, nothing else |
| `Eos5Lists.OneMoreVariable` | opendap/hdf5_handler/HDFEOS5CF.cc:321-339 | adjusting one variable adds its new names to the list, each with the size of the name it is a numbered form of, and moves nothing |
| `Eos5VarDims.EosGroup.AddGroupDims` | opendap/hdf5_handler/HDFEOS5CF.cc:369-400 | records every dimension under its full name with its size and nothing else, first name of a size first; throws exactly for a repeated name; the size map is a section of the name map |
| `Eos5VarDims.EosGroup.CheckAllDimNames` | opendap/hdf5_handler/HDFEOS5CF.cc:1069-1084 | finds the least other recorded name of the size in key order, if there is one |
| `KeyOrder.FirstDifferenceDecides` | opendap/hdf5_handler/HDFEOS5CF.cc:1069-1084 | the key order of the maps: the first differing character decides, a prefix comes first |
| `Eos5VarDims.EosGroup.GetUniqueName` | opendap/hdf5_handler/HDFEOS5CF.cc:1087-1093 | the name, an underscore and the first free number, added to the names handed out |
| `Eos5VarDims.EosGroup.CreateUniqueFakeDimName` | opendap/hdf5_handler/HDFEOS5CF.cc:1095-1120 | a name never handed out before; throws exactly for an unsupported type |
| `Eos5VarDims.EosGroup.RecordDim` | opendap/hdf5_handler/HDFEOS5CF.cc:1026-1028 | throws exactly when the name is recorded; the size map stays a section of the name map |
| `Eos5VarDims.EosGroup.CreateUniqueDimName` | opendap/hdf5_handler/HDFEOS5CF.cc:992-1065 | which name a dimension gets, how the maps move, and exactly when it throws; with one group the name shown has no slash and is what follows the last slash; it cannot throw on tidy maps, and keeps them tidy |
| `Eos5VarDims.EosGroup.ChooseName` | opendap/hdf5_handler/HDFEOS5CF.cc:1008-1052 | the choice of the name: recorded, or made up and recorded now; it fails exactly when a new name is recorded already or has no type |
| `Eos5VarDims.EosGroup.ShowName` | opendap/hdf5_handler/HDFEOS5CF.cc:1034-1041 | the full name; or, when the file has one group, what follows its last slash, which has no slash and is not empty; throws exactly when there is no slash or nothing follows it |
| `Eos5VarDims.EosGroup.SetNonParseVarDims` | opendap/hdf5_handler/HDFEOS5CF.cc:1177-1192 | every dimension gets a recorded name of its size, shown in full or by its last part, pairwise distinct if and only if no three dimensions have one size; on tidy maps it succeeds exactly for a variable without names |
| `Eos5VarDims.EosGroup.AssignByMetadata` | opendap/hdf5_handler/HDFEOS5CF.cc:956-979 | metadata names go only to unnamed dimensions of their size, no name twice; a dimension stays unnamed only if all metadata names of its size are used |
| `Eos5VarDims.EosGroup.TryCandidate` | opendap/hdf5_handler/HDFEOS5CF.cc:967-976 | one metadata name is given at most once in a variable; with one group it is shown as the metadata has it |
| `Eos5VarDims.EosGroup.NameTheRest` | opendap/hdf5_handler/HDFEOS5CF.cc:981-986 | completes the naming of a variable and keeps every name and size given before; cannot fail on tidy maps |
| `Eos5VarDims.EosGroup.NameByMetadata` | opendap/hdf5_handler/HDFEOS5CF.cc:956-986 | one metadata entry: all dimensions named, recorded with their sizes; metadata names first; distinct if and only if AllApart holds of the maps before; a named variable is left alone; cannot fail on tidy maps |
| `Eos5VarDims.EosGroup.SetVarDims` | opendap/hdf5_handler/HDFEOS5CF.cc:899-990 | reports an error, or leaves every dimension with a recorded name of its size, metadata names first, distinct if and only if AllApart holds of the maps before; answers false exactly when the metadata does not list the variable, which then stays unnamed; on tidy maps it throws exactly when a listed rank differs |
| `Eos5VarDims.EosGroup.NameVariable` | opendap/hdf5_handler/HDFEOS5CF.cc:831-895 | a variable of the group, listed in the metadata or not: all dimensions named and recorded, distinct if and only if AllApart holds; on tidy maps it fails exactly for a wrong rank |
| `Eos5Apart.LeftCounts` | opendap/hdf5_handler/HDFEOS5CF.cc:956-979 | the metadata leaves as many dimensions of a size without a name as there are dimensions more than distinct metadata names of the size |
| `Eos5Apart.RestStep` | opendap/hdf5_handler/HDFEOS5CF.cc:981-986 | of the dimensions that are left, the first of a size gets the name of the size unless that is taken, all others the first other name |
| `Eos5Apart.SectionTaken` | opendap/hdf5_handler/HDFEOS5CF.cc:1014-1019 | when a dimension of a size is left, the name of the size is taken exactly when it is a metadata name of the variable |
| `Eos5Apart.AlternativeTaken` | opendap/hdf5_handler/HDFEOS5CF.cc:1021-1031 | the first other name is a metadata name exactly when it was one before the variable was named |
| `Eos5Apart.SizeApart` | opendap/hdf5_handler/HDFEOS5CF.cc:956-1065 | the dimensions of one size get distinct names if and only if Apart holds of the size, a condition on the sizes of the variable, its metadata names and the maps before |
| `Eos5Apart.ApartExactly` | opendap/hdf5_handler/HDFEOS5CF.cc:956-1065 | all names of the variable are distinct if and only if Apart holds of every size it has |
| `Eos5Apart.WithoutMetadata` | opendap/hdf5_handler/HDFEOS5CF.cc:1177-1192 | for a variable without metadata the condition says that no three dimensions have one size |
| `Eos5Apart.ThreeOfOneSize` | opendap/hdf5_handler/HDFEOS5CF.cc:1069-1084 | a concrete variable whose names are distinct, and the same with one recorded name less, where they are not |
| `Eos5Apart.ApartStays` | opendap/hdf5_handler/HDFEOS5CF.cc:813-827 | naming other variables in between does not change whether the names of a variable will differ |
| `Eos5Metadata.RestComesSecond` | opendap/hdf5_handler/HDFEOS5CF.cc:961-986 | a dimension ends without a metadata name only if all metadata names of its size are names of the variable |
| `Eos5Metadata.OneFromMetadata` | opendap/hdf5_handler/HDFEOS5CF.cc:967-976 | every name the metadata loop gives is a metadata name of the size of its dimension |
| `Eos5VarDims.PlainNamesAreTidy` | opendap/hdf5_handler/HDFEOS5CF.cc:369-400 | recorded names without slashes that do not end with a digit give tidy maps |
| `Eos5VarDims.FirstNames` | opendap/hdf5_handler/HDFEOS5CF.cc:389-390 | the first dimension of a size gives the size its name |
| `Eos5Progress.OwnListIs` | opendap/hdf5_handler/HDFEOS5CF.cc:853-872 | geolocation fields are looked up among geolocation fields, data fields among data fields, others nowhere |
| `Eos5Group.SoundExample` | opendap/hdf5_handler/HDFEOS5CF.cc:321-342 | a concrete group with sound metadata, whose field uses one dimension twice |
| `Eos5Group.AddedIsMade` | opendap/hdf5_handler/HDFEOS5CF.cc:321-339 | every entry the variables add is a numbered form of a declared dimension and has its size |
| `Eos5Group.AdjustedNamesDistinct` | opendap/hdf5_handler/HDFEOS5CF.cc:321-342 | the extended list of an orderly group has distinct names, as recording it demands |
| `Eos5Group.OrderlyIsTidy` | opendap/hdf5_handler/HDFEOS5CF.cc:369-400 | recording the extended list of an orderly group gives tidy maps, although it holds numbered names |
| `Eos5Group.RecordGroup` | opendap/hdf5_handler/HDFEOS5CF.cc:197-400 | condensing, adjusting and recording one group: the maps hold the extended list and nothing else, the metadata names are recorded with their sizes; throws exactly for an unknown or a repeated name; sound metadata gives tidy maps |
| `Eos5Group.ApartAsAtFirst` | opendap/hdf5_handler/HDFEOS5CF.cc:813-827 | whether the names of a variable differ is decided by the maps as they were before any variable was named |
| `Eos5Group.NameVariables` | opendap/hdf5_handler/HDFEOS5CF.cc:813-895 | all variables of a group: every dimension keeps a recorded name of its size, distinct in a variable if and only if AllApart holds of the maps at the start; on tidy maps it fails exactly for a wrong rank |
| `Eos5Group.NameGroup` | opendap/hdf5_handler/HDFEOS5CF.cc:813-895 | a whole group, from its metadata to the names of all its variables: each name recorded with the size of its dimension, distinct exactly when AllApart holds; with sound metadata it fails exactly for a wrong rank |
| `Eos5Naming.FullNameInjective` | opendap/hdf5_handler/HDFEOS5CF.cc:385-386 | different dimension names of a group stay different |
| `Eos5Naming.FullNameIs` | opendap/hdf5_handler/HDFEOS5CF.cc:906-913 | the prefix /GRIDS/, /SWATHS/ or /ZAS/, then the group, a slash and the name |
| `Eos5Naming.LastPartIs` | opendap/hdf5_handler/HDF5CFUtil.cc:112-120 | the last part of a path has no slash, is not empty, and follows a slash |
| `Eos5Naming.NoLastPart` | opendap/hdf5_handler/HDF5CFUtil.cc:112-120 | there is none exactly when there is no slash or nothing follows the last one |
| `Eos5Naming.AfterLastSlash` | opendap/hdf5_handler/HDF5CFUtil.cc:112-120 | what it returns, if not empty, is the end of the string after a slash |
| `Eos5Naming.AfterLastSlashJoin` | opendap/hdf5_handler/HDF5CFUtil.cc:112-120 | it recovers the last component of a joined path |
| `Eos5Naming.CreatedIsRecorded` | opendap/hdf5_handler/HDFEOS5CF.cc:1008-1064 | each naming step keeps the size map a section of the name map and forgets no recorded size |
| `Eos5Naming.NewNameDiffers` | opendap/hdf5_handler/HDFEOS5CF.cc:1009-1033 | a name put into use differs from all names of the variable, unless three dimensions are alike |
| `Eos5Naming.StepKeeps` | opendap/hdf5_handler/HDFEOS5CF.cc:992-1065 | each naming step keeps the invariant of the variable: recorded, tracked, distinct unless three are alike |
| `Eos5Naming.AssignKeeps` | opendap/hdf5_handler/HDFEOS5CF.cc:967-976 | giving a metadata name keeps the same invariant |
| `Eos5Naming.ForcedStep` | opendap/hdf5_handler/HDFEOS5CF.cc:1008-1064 | without metadata the names are forced: the section name first, the first alternative for every further dimension of the size |
| `Eos5Naming.ForcedRepeats` | opendap/hdf5_handler/HDFEOS5CF.cc:1014-1033 | hence three dimensions of one size never get distinct names |
| `Eos5Naming.MadeUpIsTidy` | opendap/hdf5_handler/HDFEOS5CF.cc:1019-1029 | a name fresh among those handed out can be recorded, and keeps the maps tidy |
| `Eos5Naming.TidyCanCreate` | opendap/hdf5_handler/HDFEOS5CF.cc:992-1065 | on tidy maps no naming step can fail |
| `Eos5CoordVars.Scan` | opendap/hdf5_handler/HDFEOS5CF.cc:680-717 | after the first loop each used dimension has its first field, and exactly the shared ones and the grid axes are disqualified |
| `Eos5CoordVars.Erase` | opendap/hdf5_handler/HDFEOS5CF.cc:720-724 | removes exactly the disqualified dimensions |
| `Eos5CoordVars.HandleNonLatLonDimCVars` | opendap/hdf5_handler/HDFEOS5CF.cc:674-724 | a dimension is mapped to a field if and only if that field is the only one-dimensional one using it and it is not XDim or YDim of a grid; nothing else is mapped; throws exactly for an unsupported type |
| `Eos5CoordVars.UsesAloneIs` | opendap/hdf5_handler/HDFEOS5CF.cc:684-712 | the only field whose single dimension has that name |
| `CoordVars.GMVariables.ExtractScales` | opendap/hdf5_handler/HDF5GMCF.cc:1277-1295 | erasing while walking moves exactly the variables with that path, in order; throws exactly when one of them is not one-dimensional |
| `CoordVars.GMVariables.ExtractAll` | opendap/hdf5_handler/HDF5GMCF.cc:1317-1347 | over all names in key order: the rest keeps its order, the names without a variable are the ones left over |
| `CoordVars.GMVariables.AddMissing` | opendap/hdf5_handler/HDF5GMCF.cc:1351-1357 | one made-up coordinate variable per name left, in key order, with the size on record |
| `CoordVars.GMVariables.HandleCVar` | opendap/hdf5_handler/HDF5GMCF.cc:1309-1359 | what is in vars and cvars afterwards, in order, and exactly when it throws; a coordinate variable is a variable with the path of its dimension, CV_FILLINDEX exactly when it is marked as a netCDF dimension, or one made up; when every dimension name has a size, as naming leaves it, each made-up variable has the recorded size and the map stays |
| `CoordVars.NetCDFDimensionIs` | opendap/hdf5_handler/HDF5GMCF.cc:1958-1983 | a variable is marked when its first NAME attribute begins with the text of the netCDF library |
| `CoordVars.AddedAre` | opendap/hdf5_handler/HDF5GMCF.cc:1319-1357 | where every coordinate variable comes from, and its name, path, type, size and kind |
| `CoordVars.KeyOrderIs` | opendap/hdf5_handler/HDF5GMCF.cc:1317-1357 | the names are visited once each, in key order |
| `CoordVars.MissingInOrder` | opendap/hdf5_handler/HDF5GMCF.cc:1351-1357 | the made-up variables come in the order of their names |
| `CoordVars.GMVariables.constructor` | opendap/hdf5_handler/HDF5GMCF.cc:745-782 | the dimension names are exactly those with a size, as the naming of dimensions leaves them |
| `CoordVars.AllIsRecorded` | opendap/hdf5_handler/HDF5GMCF.cc:1939-1954 | when every dimension name has a size, no coordinate variable gets a default size |
| `CoordVars.LookupsLeaveNoTrace` | opendap/hdf5_handler/HDF5GMCF.cc:1939-1954 | looking up sizes with operator[] changes the map exactly when a name has no recorded size |
| `CoordVars.TakeOutConserves` | opendap/hdf5_handler/HDF5GMCF.cc:1277-1295 | one name: the multiset of variables is what stays plus what moves |
| `CoordVars.ScalesConserve` | opendap/hdf5_handler/HDF5GMCF.cc:1317-1347 | all names: every original variable ends in exactly one of vars and cvars, none lost or duplicated |
| `CoordVars.ScalesArePresent` | opendap/hdf5_handler/HDF5GMCF.cc:1319-1346 | a name has an extracted coordinate variable if and only if a variable has that path, at most one when paths are distinct |
| `CoordVars.OneCoordinateEach` | opendap/hdf5_handler/HDF5GMCF.cc:1309-1359 | with distinct paths every dimension name gets exactly one coordinate variable, other names none |
| `CoordVars.GMVariables.HandleSpVarACOS` | opendap/hdf5_handler/HDF5GMCF.cc:1366-1402 | the 64-bit variables leave, the others keep their order; each adds its time and its date part, in order |
| `CoordVars.SplitIsExact` | opendap/hdf5_handler/HDF5GMCF.cc:1366-1402 | two 32-bit parts for each variable that goes, both made from it; no other part, no other variable lost |
| `CoordVars.SplitOneMore` | opendap/hdf5_handler/HDF5GMCF.cc:1366-1402 | the variables are taken in order; the two parts are named _Time with digits 1 to 6 and _Date with digits 7 to 14, 32 bits wide |
| `SoundingWindows.PowerOfTen` | opendap/hdf5_handler/HDF5GMSPCFArray.cc:256-262 | the multiplying loop computes the power of ten |
| `SoundingWindows.PowersOfTen` | opendap/hdf5_handler/HDF5GMSPCFArray.cc:256-262 | the first power is 1, each next one ten times as large |
| `SoundingWindows.Truncates` | opendap/hdf5_handler/HDF5GMSPCFArray.cc:271-272 | quotient and remainder as C++ computes them: truncated, with the sign of the dividend |
| `SoundingWindows.WindowIs` | opendap/hdf5_handler/HDF5GMSPCFArray.cc:256-272 | the window of a number and of its negative, and what a first digit below 1 or a negative width does |
| `SoundingWindows.ReadWindows` | opendap/hdf5_handler/HDF5GMSPCFArray.cc:254-272 | every element is the window of decimal digits that the variable describes |
| `SoundingWindows.WindowsJoin` | opendap/hdf5_handler/HDF5GMSPCFArray.cc:264-272 | adjacent windows make one wider window, for every non-negative value, position and width |
| `SoundingWindows.PartsReassemble` | opendap/hdf5_handler/HDF5GMCF.cc:1366-1402 | Date * 10^6 + Time is the identifier if and only if it has at most 14 digits; both parts always fit 32 bits |
| `Escape.RewriteStep` | opendap/hdf5_handler/h5cfdaputil.cc:67-70 | replacing one character in place moves a pass strictly forward in the original text |
| `Escape.EscapeBackslashes` | opendap/hdf5_handler/h5cfdaputil.cc:65-70 | terminates; doubles every backslash of the original and nothing else |
| `Escape.EscapeNonPrintables` | opendap/hdf5_handler/h5cfdaputil.cc:72-75 | terminates although the index is not advanced; replaces exactly the non-printable characters |
| `Escape.EscapeQuotes` | opendap/hdf5_handler/h5cfdaputil.cc:78-83 | terminates; escapes exactly the quotes |
| `Escape.PassesCompose` | opendap/hdf5_handler/h5cfdaputil.cc:57-86 | the three passes together are one substitution per character of the original |
| `Escape.Escattr` | opendap/hdf5_handler/h5cfdaputil.cc:57-86 | the whole function is that substitution, and a decoder gets every byte string back |
| `Escape.PrintableIs` | opendap/hdf5_handler/h5cfdaputil.cc:59 | the characters that are left alone are those of the list, one by one |
| `Escape.EscapedByte` | opendap/hdf5_handler/h5cfdaputil.cc:57-96 | what stands for each byte: itself, an escaped backslash or quote, or a backslash and three octal digits |
| `Escape.OctstringDigits` | opendap/hdf5_handler/h5cfdaputil.cc:88-96 | three octal digits for every byte, most significant first |
| `Escape.UnescapeEscape` | opendap/hdf5_handler/h5cfdaputil.cc:57-86 | round trip: decoding undoes escaping for every byte string |
| `Escape.EscapeInjective` | opendap/hdf5_handler/h5cfdaputil.cc:57-86 | different texts never become the same attribute text |
| `StringAttrs.SlicesOfConcat` | opendap/hdf5_handler/h5commoncfdap.cc:275-279 | slicing with the recorded sizes undoes packing |
| `StringAttrs.TrimSection` | opendap/hdf5_handler/HDF5CFUtil.cc:135-179 | what is kept of one string for each kind of padding, and the size recorded for it |
| `StringAttrs.TrimmedExactly` | opendap/hdf5_handler/HDF5CFUtil.cc:135-147 | null-padded text loses its padding and nothing else if and only if it is empty or ends with neither a zero digit nor a NUL |
| `StringAttrs.NullPadFails` | opendap/hdf5_handler/HDF5CFUtil.cc:135-147 | the text 10 becomes 1, and padding NULs stay |
| `StringAttrs.TrimmedSectionsExactly` | opendap/hdf5_handler/HDF5CFUtil.cc:122-184 | for a whole buffer: which of the sections come out as the unpadded text, for each kind of padding |
| `StringAttrs.TrimString` | opendap/hdf5_handler/HDF5CFUtil.cc:122-184 | the packed text is the trimmed sections in order; one recorded size each |
| `StringAttrs.SectionsAreTheBuffer` | opendap/hdf5_handler/HDF5CFUtil.cc:128-133 | the sections one after the other are the buffer, and all but the last have the section size |
| `StringAttrs.SizesRightExactly` | opendap/hdf5_handler/HDF5CFUtil.cc:122-184 | the recorded sizes are the lengths packed if and only if a null-terminated last section without a NUL has the full section size |
| `StringAttrs.RetrieveFixedStrings` | opendap/hdf5_handler/HDF5CF.cc:754-772 | for a buffer of whole sections, text and sizes agree |
| `StringAttrs.RetrieveVariableStrings` | opendap/hdf5_handler/HDF5CF.cc:694-729 | the same contract for variable-length strings; a NULL counts as an empty string |
| `StringAttrs.GenDapStrAttr` | opendap/hdf5_handler/h5commoncfdap.cc:267-291 | the running position recovers exactly the k-th piece for every k; an empty piece is skipped without shifting later ones |
| `StringAttrs.FixedStringsToDas` | opendap/hdf5_handler/h5commoncfdap.cc:267-291 | strings packed with NULs into a null-terminated buffer are shown as they were, in order, and space-padded ones with one blank; null-padded ones are right if and only if no section ends with a zero digit or a NUL |
| `StringAttrs.NullTermComesBack` | opendap/hdf5_handler/HDF5CFUtil.cc:128-166 | any strings without NUL that fit, each filled with NULs, come back |
| `StringAttrs.SpacePadComesBack` | opendap/hdf5_handler/HDF5CFUtil.cc:128-163 | any strings that fit and do not end with a blank, each filled with blanks, come back with one blank |
| `StringAttrs.RenderedIs` | opendap/hdf5_handler/h5commoncfdap.cc:273-289 | one string after the other: an empty one and, with the drop-long key, one of more than 32767 bytes is left out; origname and fullnamepath are not escaped |
| `StringAttrs.NullPadReachesDasExactly` | opendap/hdf5_handler/h5commoncfdap.cc:267-291 | the attribute table shows the null-padded strings as stored if and only if no section ends with a zero digit or a NUL |
| `StringAttrs.VariableStringsToDas` | opendap/hdf5_handler/h5commoncfdap.cc:267-291 | the same for variable-length strings, NULL counting as empty |
| `StringAttrs.RenderedDecodes` | opendap/hdf5_handler/h5commoncfdap.cc:283-288 | a reader that decodes the attribute values gets back exactly the strings that are shown: the non-empty ones, or under the drop-long key those that are not too long; verbatim attributes are left as they are |
| `StringAttrs.ShownIs` | opendap/hdf5_handler/h5commoncfdap.cc:273-289 | the strings that are to be seen: those neither empty nor left out for their length, in order |
| `DerivedArrays.FormatBaseConstraint` | opendap/hdf5_handler/HDF5BaseArray.cc:68-114 | throws exactly when the first slice with a fault is a rejected one, and divides by zero exactly when it has stride zero; three zeros mean the whole dimension; else offset, step, count and number of elements of the slices in force |
| `DerivedArrays.WholeSlice` | opendap/hdf5_handler/HDF5BaseArray.cc:137-141 | a slice as long as its dimension selects each element in place |
| `DerivedArrays.AllSelected` | opendap/hdf5_handler/HDF5BaseArray.cc:137-141 | selecting as many elements as there are yields all of them, unchanged |
| `DerivedArrays.WriteNatureNumberBuffer` | opendap/hdf5_handler/HDF5BaseArray.cc:116-147 | both branches write the selected part of 0, 1, 2, ...; throws exactly for a rank other than one or a rejected slice, and divides by zero exactly for stride zero |
| `DerivedArrays.SelectedNaturals` | opendap/hdf5_handler/HDF5BaseArray.cc:137-147 | element i is start + i * stride, for as many i as do not pass stop |
| `DerivedArrays.FillCoordinates` | opendap/hdf5_handler/HDFEOS5CFMissLLArray.cc:107-114 | the loops fill in the coordinate of the cell that each selected index names |
| `DerivedArrays.LatitudeIs` | opendap/hdf5_handler/HDFEOS5CFMissLLArray.cc:84-117 | latitudes of ydim rows: down from the upper edge for an upper origin, up from the lower edge for a lower one, half a cell in for centre registration |
| `DerivedArrays.LongitudeIs` | opendap/hdf5_handler/HDFEOS5CFMissLLArray.cc:119-148 | longitudes of xdim columns: up from the left edge for a left origin, down from the right edge for a right one |
| `DerivedArrays.ReadMissLL` | opendap/hdf5_handler/HDFEOS5CFMissLLArray.cc:50-148 | element i is the coordinate of the i-th selected index of the first dimension; with one dimension the result is the selected part of all coordinates; throws exactly for a non-geographic projection, no dimension, a rejected slice or an empty axis, and divides by zero exactly for stride zero |
| `DerivedArrays.BetweenEdges` | opendap/hdf5_handler/HDFEOS5CFMissLLArray.cc:102-114 | every coordinate lies between the scaled edges of the grid |
| `DerivedArrays.OppositeOriginReverses` | opendap/hdf5_handler/HDFEOS5CFMissLLArray.cc:86-110 | with centre registration, starting from the opposite edge reverses the sequence |
| `DerivedArrays.FlippedAxisReverses` | opendap/hdf5_handler/HDFEOS5CFMissLLArray.cc:84-142 | upper-origin latitudes are the reverse of lower-origin ones, left-origin longitudes the reverse of right-origin ones |

## Left out

- The HDF5 C API, libdap and BES classes: files, attributes, types and constraints are inputs, attribute tables and arrays are sequences and maps.
- Machine integers and floats: integers are unbounded except where 32-bit width is the claim, coordinates are reals, so overflow and rounding are not modelled.
- Iterator validity of erasing the first element and stepping back: vectors are sequences with an index.
- The DDS version of the walk, external links, soft-link attributes, comments, the group-structure attribute and the reuse of the global path table across requests.
- Handle_DimNameClashing: names outside its map become empty, so it has no clean general property.
- The attribute-name clash passes: the same pass as for objects, on sets of their own.
- FILE_ATTR_TABLE_NAME is a static variable of a header, one copy for each source file that includes it; the model has one copy, that of HDF5CF.cc.
- Remove_NegativeSizeDims: it drops entries of no positive size; sizes in the model are natural numbers from there on.
- Coordinate variables of SMAP, SeaWiFS and Aquarius products, attribute rewriting for particular missions, numeric printing and arrays of variable-length strings.
- replace_double_quote and the memory types of h5cfdaputil.cc: no hard property.
- Hyperslab.Read: the elements are of an arbitrary type, so the widening of signed bytes is in Hyperslab.ReadInteger; variable-length strings (HDF5Array.cc:617-622, 806-848) are not part of the model: that branch assumes one dimension and copies the selected strings.
- DasTraversal.DasBuilder.DepthFirst: links come in the order in which the group lists them, and reading of attributes adds no entries.
- NameClash.GetCFString: the underscore before a leading digit depends on the parameter that stands for the C library.
- FakeDims.File.AddDimNames: assumes that no made-up name still to come is in use, as the clash branches always throw; the exact conditions are those of AddOneFakeDimName and AdjustDuplicateFakeDimName.
- Eos5VarDims.EosGroup.SetVarDims: starts from a variable without dimension names, as the EOS5 reader delivers it; on maps that are not tidy, when it throws is stated step by step (CreateUniqueDimName), not for the whole variable.
- Eos5Group.NameGroup: one group; which variables belong to it, and the kind of their fields, are inputs. SoundLists is sufficient for success, not necessary; the exact conditions are those of RecordGroup and of each naming step.
- Eos5VarDims.EosGroup.AddGroupDims: the maps of the group whose repeated name makes it throw are not described, as the handler abandons them.
- Eos5CoordVars.HandleNonLatLonDimCVars: starts from an empty map, as its callers do.
- DerivedArrays.ReadMissLL: the projection is a flag, and the axis is latitude or longitude; the code leaves the buffer of any other kind of variable untouched.
- SoundingWindows.ReadWindows: the hyperslab of the 64-bit variable is its input.
