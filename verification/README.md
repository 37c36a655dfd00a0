# Verified models of libbpf's type, lookup and ring code

This project models the hard core of the vendored `libbpf` and of one hash header, and proves
what that code is for. The modules follow the source:

- **Deduplication of BTF types** (`libbpf/src/btf.c`). `BtfTypes`, `TypeGraph`, `CanonMap`,
  `Equivalence`, `DedupTable`, `RefPass`, `Meaning`, `Fields`, `Distinctness` and `Dedup` hold
  the descriptors, the type graph and its unfoldings, the canonical map, the assume-then-check
  comparison of cyclic type graphs, and the passes on their arrays; `Copies` and `NamedCopies`
  what becomes of the copies that several compilation units bring. `Strings` and `StringDedup` deduplicate the string
  section, `TypeSection` compacts the bytes in place, and `WholeDedup` puts the halves together:
  a type read through its final id unfolds, names compared as strings, to the same tree of any
  depth. `Limits` shows where the algorithm falls short of its purpose.
- **The chained hash table** (`libbpf/src/hashmap.c`), as a finite map and as a multiset.
- **The C emitter** (`libbpf/src/btf_dump.c`). `Declarators` holds the printed form of a chain of
  pointers, qualifiers, arrays and prototypes, a parser for the declarator grammar, and the round
  trip; `DeclEmitter` the emitter with its shared stack; `OrderTypes` the topological sort.
- **CO-RE relocation** (`libbpf/src/libbpf.c`, `libbpf/src/bpf_core_read.h`). `BtfLookup`,
  `CoreSpec` (the path parser and the backtracking matcher) and `Bitfields`.
- **Rings.** `XskRings` for the AF_XDP rings with wrapping 32-bit counters, as interleaved steps
  and as the two sides' methods refining them; `PerfRing` for the perf buffer reader.
- **Smaller loops.** `ProgLinfo`, `BtfExt` and `Jhash`; `Basics`, `Words` and `Multisets` are shared.

Statements about what a type holds, which types match, what is compatible, what a declaration
says and what a ring delivers are given by kinds and fields, or by the operations alone, apart from
the functions that specify the code; the lemmas that tie the two together are in the table.

Where the source works in place the model does too: arrays and fields of classes with the same
updates in the same order, tied to specification functions about which the theorems are proved.

Notions used in the table. A *closed* hypothetical map is one in which every recorded pair
matches and every pair of children is recorded or resolves to one id. The *tag* of a type is its
name and kind, where a forward declaration has the kind it announces. A *reading* unfolds types
with some tags opaque and some forward declarations read as definitions; it is *coherent* if,
with forward resolution, a forward declaration reads like each definition of its tag.
A map takes types to *copies* if each copy differs from its original in type ids only, and these
lead to the copies of what the original refers to, or to the same types.
*Malformed* types contain a void descriptor after the first, or a reference to a variable from
outside a data section.

Facts about the code that the statements reflect:

- With forward resolution a run can give two different structs of one name the same final id
  (`Limits.ForwardsConflate`). What is kept in any case are the coherent readings, among them the
  outlines down to the tags that are both announced and defined. Types as they stand keep their
  meaning exactly if no forward declaration has become a definition in the output. The input
  tells that one will with a forward enum and a full one of its name and size, and that none will
  without such enums, unless some struct is both announced and defined and two structs that agree
  but for their member types have one outline; then it depends on the comparisons.
- The comparison pairs each canonical type with one candidate type, so equivalent structs can
  stay apart (`Limits.StructsStayApart`); `CheckGraphs` states exactly when it succeeds. Copies
  that the comparison can pair in one way only do come together (`Copies.CopiesGone`): of a struct
  and its copy at most one stays canonical (`Copies.OneOfTwoCopies`).
- `btf_for_each_str_off` visits type names and line information, not function information.
- `hashmap_grow` reverses the entries of a key, against the "last inserted" remark in
  `libbpf/src/hashmap.h`.
- `bpf_core_match_member` does not undo an incompatible hit (`CoreSpecs.AmbiguousMatch`). The
  matcher's statements require that no compatible member of a name follows an incompatible one,
  which unique names give (`CoreSpecs.UniqueHitsFit`), and that only string offset 0 names the
  empty string, because the parser and the matcher test for a missing name differently.
- `bpf_core_calc_field_relo` reports enums as signed although its comment says unsigned.
- `BPF_CORE_READ_BITFIELD` has no breaks in its switch: always right on little-endian machines,
  on big-endian ones exactly for loads of eight bytes (`Bitfields.DirectBigExact`).
- `btf_dump_order_type` marks a pointer as ordered even when its target failed: it is stale then.
  What structs need in place around stale pointers, in particular by value, is always queued
  before them; what they need behind one is not always (`OrderTypes.StalePointer`). The whole
  queue is in order in place exactly if that happens to be (`OrderTypes.InPlaceExact`). Without
  type loops and stray voids no dump fails and no pointer gets stale.
- `btf_dump_mark_referenced` ignores the result type of a prototype.
- `dissect_jited_func` stops checking once the last function is found, so only the records of the
  other blocks are known to ascend; whether those of the last one do decides if lookups in it are
  right (`ProgLinfos.LocatedExact`).
- `btf_parse_type_sec` accepts sections whose last descriptor overshoots their end
  (`TypeSection.OvershootAccepted`).
- Array compaction, renumbering and filing of types cannot fail after the checks that precede
  them, so their error branches never run.

## Model

| member | source | states |
|---|---|---|
| `WholeDedup.BtfDedup` | libbpf/src/btf.c:1223-1268 | The whole run, strings and types: the only errors are a string offset that starts no string, malformed types and a cycle of reference types, and none of the first, no stray void and no such cycle gets through. Afterwards every input type, read with the old strings, unfolds to every depth like its final id, read with the new ones, down to the tags that are both announced and defined; and through them as well exactly if no forward declaration has become a definition. With forward resolution the input tells that one has, if it holds a forward enum and a full one of that name and size, and that none has, if it holds no such enums and not both an announced struct and two structs of one outline that agree but for their member types. Line information keeps its strings, no two output descriptors of the kinds compared as a whole are identical, and neither strings nor types grow. Field by field, every output type is the image of an input type: kind, counts, offsets, values, sizes and encodings unchanged; the type of a link, prototype or variable, elements and indices, and the types of members, parameters and section variables replaced by their final ids; and its name and those of members, enumerators and parameters the same strings. Links, arrays, prototypes, variables and sections are images of their own. Copies whose structs are alike, names as strings, to nothing but copies end up under one id, unless forward declarations are to be resolved and there are any of a defined tag. |
| `WholeDedup.DedupTypes` | libbpf/src/btf.c:1223-1268 | The type passes as one call on the descriptors: the errors in their cases, every coherent reading kept, types as they stand kept exactly if no forward declaration has become a definition, with what the input alone decides about that, and an order of the reference types in which all that a type refers to comes first. Field by field the output is the input with every type id replaced by its final id, and copies whose structs are alike to nothing but copies share their final ids. |
| `WholeDedup.FieldsCarried` | libbpf/src/btf.c:1223-1268 | Rewritten string offsets and renumbered type ids together: every field of the output, with names as strings, is that of an input type or the final id of it. |
| `WholeDedup.DuplicatesShare` | libbpf/src/btf.c:2456-2522 | Copies with the same strings, whatever their offsets, share their final ids if after string deduplication those with equal offsets do. |
| `WholeDedup.DecidedByNames` | libbpf/src/btf.c:1223-1268 | What the input decides about forward declarations can be read off with names as strings, before strings are deduplicated. |
| `WholeDedup.ReadingsKept` | libbpf/src/btf.c:2362-2432 | What forward resolution always leaves: outlines in which announced tags are opaque; and, if all definitions of each announced tag mean the same, the meanings in which a forward declaration is read as its definition. |
| `WholeDedup.PlainKept` | libbpf/src/btf.c:1223-1268 | With names as strings: types as they stand keep their meaning exactly if no forward declaration has become a definition. |
| `WholeDedup.SharedAlike` | libbpf/src/btf.c:1581-1596 | The tags that are both announced and defined are the same before and after string deduplication. |
| `WholeDedup.DedupPreservesNamedMeaning` | libbpf/src/btf.c:1223-1268 | Names compared as strings: for every reading with opaque tags that the type passes keep, an input type read with the old string section unfolds to every depth like its final id read with the new one. |
| `WholeDedup.StringsPreserved` | libbpf/src/btf.c:1609-1722 | String deduplication alone changes no unfolding, members, enumerators and parameters included. |
| `WholeDedup.SkeletonDecides` | libbpf/src/btf.c:1223-1268 | Renaming changes none of the conditions that decide whether the type passes succeed. |
| `Dedup.Dedup.Run` | libbpf/src/btf.c:1223-1268 | The type passes: 0 means no stray void, no cycle of reference types, and the output is exactly the canonical descriptors with every reference renumbered, no two of them identical among the kinds compared as a whole. Every coherent reading is kept at every depth; without forward resolution, or if nothing came to be resolved, that is every reading, and types as they stand are kept exactly if no forward declaration has become a definition. With forward resolution one has if the input holds a forward enum and a full one that it is compatible with; none has if there are no such enums and not both an announced struct and twins, two shallow-equal structs that mean the same apart from forward declarations. -ELOOP means a cycle of reference types, -EINVAL malformed input; filing a type never fails for want of room. Field by field, every output type is an input type with each type id replaced by its final id, and links, arrays, prototypes, variables and sections are such images of their own. |
| `Fields.OutputFields` | libbpf/src/btf.c:2682-2862 | By kinds and fields: the word of links, prototypes and variables, elements and indices, and the types of members, parameters and section variables are the final ids of those of the input; everything else is unchanged. |
| `Fields.FieldsAt` | libbpf/src/btf.c:2759-2850 | The same for one type whose representative became identical to it. |
| `Fields.RefsAreFields` | libbpf/src/btf.c:2759-2850 | Replacing the listed references is replacing exactly the fields that hold type ids. |
| `Dedup.PassDecided` | libbpf/src/btf.c:2456-2522 | After the struct pass a forward declaration is resolved if the input holds a forward enum and a compatible full one, and none is if it holds neither such enums nor both an announced struct and twins. |
| `Dedup.StepKeepsForward` | libbpf/src/btf.c:2456-2522 | A step of the struct pass never changes a forward enum, and without twins no forward declaration at all. |
| `Meaning.MeaningPreserved` | libbpf/src/btf.c:2682-2862 | For every coherent reading, type and depth, the unfolding of the final id in the output equals that of the input id. Without forward resolution every reading is coherent; with it, those in which a forward declaration reads like each definition of its tag. |
| `Meaning.TagPreserved` | libbpf/src/btf.c:2682-2862 | In either mode the final id has the name of the input type and its kind, or the kind that a forward declaration announced, and the header of what the type resolves to. |
| `Meaning.AllKept` | libbpf/src/btf.c:1223-1268 | Tags and coherent readings for all input ids at once. |
| `Meaning.LostIfResolved` | libbpf/src/btf.c:2388-2432 | The other half: if types as they stand keep their meaning, no forward declaration has become a definition. |
| `Meaning.StaysIfUnresolved` | libbpf/src/btf.c:2388-2432 | A forward declaration has become a definition in the output exactly if one was mapped to a definition. |
| `Meaning.OutputWellFormed` | libbpf/src/btf.c:2852-2862 | The output is a well-formed type graph: every rewritten id is in range. |
| `Distinctness.OutputDistinct` | libbpf/src/btf.c:2548-2862 | Among the kinds that are compared as a whole, the output has no two identical descriptors: renumbering makes no two different canonical ones equal. |
| `TypeGraph.OutlineCoherent` | libbpf/src/btf.c:2362-2380 | Outlines in which the tags that are both announced and defined are opaque are kept in either mode. |
| `TypeGraph.DefinitionsCoherent` | libbpf/src/btf.c:2362-2380 | If all definitions of each announced tag mean the same, the reading of forward declarations as definitions is kept. |
| `TypeGraph.PlainCoherent` | libbpf/src/btf.c:2362-2380 | If no forward declaration shares its tag with a definition, types as they stand are kept. |
| `Limits.ForwardsConflate` | libbpf/src/btf.c:2388-2432 | With forward resolution meanings are not kept: a run on a concrete input succeeds and gives a four-byte struct and an eight-byte struct of the same name one final id. |
| `Limits.PassConflates` | libbpf/src/btf.c:2456-2522 | Why: the struct pass on that input can only end with the small struct mapped to the large one. |
| `Limits.MergeConflates` | libbpf/src/btf.c:2388-2432 | Whatever closed map the comparison found there, and in whatever order it recorded it, the merge maps the small struct to the large one. |
| `Limits.ForcedPairs` | libbpf/src/btf.c:2225-2360 | Every closed map that settles the two outer structs pairs the forward declaration with both definitions. |
| `Limits.EquivalentStructsStayApart` | libbpf/src/btf.c:2225-2360 | The check is not complete: two structs that unfold alike but have one pointer descriptor on one side and two on the other are settled by no hypothetical map. |
| `Limits.StructsStayApart` | libbpf/src/btf.c:2225-2360 | A run on that input succeeds and keeps both structs in its output under different ids, although they mean the same. |
| `Limits.SplitPass` | libbpf/src/btf.c:2456-2522 | Why: the struct pass on that input can only end with both structs canonical. |
| `Limits.Paired` | libbpf/src/btf.c:2225-2360 | Why: any such map would pair one pointer with two. |
| `Dedup.Dedup.IsEquiv` | libbpf/src/btf.c:2225-2360 | 1 means that the pair is settled and that everything newly recorded has its obligations met; conversely 1 is returned whenever some closed hypothetical map settles the pair and contains what is recorded. Recorded pairs are never overwritten. The error needs malformed input. Terminates on cyclic graphs because unset slots shrink. |
| `Dedup.Dedup.ComparePair` | libbpf/src/btf.c:2248-2359 | The same for a pair just recorded: the descriptors first, then all children. |
| `Dedup.Dedup.ChildrenEquiv` | libbpf/src/btf.c:2297-2353 | The same for two lists of children, checked in order. |
| `Dedup.Dedup.CheckGraphs` | libbpf/src/btf.c:2494-2499 | From a cleared map the check returns 1 exactly when a closed hypothetical map settles the pair, and then leaves one behind; in terms of kinds and fields, exactly when the pair agrees in some map all of whose pairs agree: alike but for type ids, of a kind that is deduplicated, and with children that resolve to one id or are recorded; or, with forward resolution, a forward declaration or forward enum and what it announces. |
| `Dedup.Dedup.CheckHeads` | libbpf/src/btf.c:2250-2358 | Which descriptors match on their own, need their children compared, mismatch or are an error, in both modes. |
| `Equivalence.ClosedUnfold` | libbpf/src/btf.c:2225-2360 | The bisimulation argument: in a closed map, every recorded pair unfolds alike to every depth, in every coherent reading. |
| `Equivalence.ClosedSame` | libbpf/src/btf.c:2225-2360 | A closed map pairs types of one tag that unfold alike in every coherent reading. |
| `Equivalence.ClosedPairSame` | libbpf/src/btf.c:2225-2360 | So does every pair that it settles, recorded or resolved. |
| `Equivalence.ClosedExactly` | libbpf/src/btf.c:2250-2358 | A map that is closed with forward resolution and pairs no forward declaration with a definition is closed without. |
| `Equivalence.VerdictMeaning` | libbpf/src/btf.c:2250-2358 | Matching heads have the same tag; where children decide, everything but the ids is the same; where they do not, the descriptors are identical or one is a forward declaration. |
| `Equivalence.AgreementExactly` | libbpf/src/btf.c:2250-2358 | The closed maps are those in which every recorded pair agrees, by kinds and fields: nothing else is accepted, and nothing of the kind is refused. |
| `Equivalence.HeadExactly` | libbpf/src/btf.c:2250-2358 | The look at two descriptors: children decide exactly for descriptors of the other kinds that are alike but for type ids; no children are needed exactly for identical integers, enums and forward declarations and, with forward resolution, for a forward declaration or forward enum and what it announces; and the pair is invalid exactly if both are void, variables or sections of one name. |
| `Equivalence.ChildrenExactly` | libbpf/src/btf.c:2293-2352 | The children compared are those of the fields: what a link or prototype names, elements and indices, members, parameters. |
| `Dedup.Dedup.HypotMapAdd` | libbpf/src/btf.c:1327-1342 | Records one pair, in the map and in the list. |
| `Dedup.Dedup.ClearHypotMap` | libbpf/src/btf.c:1344-1351 | Clears every slot by way of the list only. |
| `Dedup.Dedup.ResolveTypeId` | libbpf/src/btf.c:2099-2104 | Terminates at the end of the chain. |
| `Dedup.Dedup.ResolveFwdId` | libbpf/src/btf.c:2110-2124 | A forward declaration resolves to its definition once there is one, anything else to itself. |
| `CanonMap.LevelDrops` | libbpf/src/btf.c:2099-2104 | No cycle other than self-loops: along every link the distance to the end, at most 3, decreases. Every pass keeps the invariant this rests on. |
| `CanonMap.ResolveRoot` | libbpf/src/btf.c:2099-2104 | Resolution ends at a canonical or unmapped id, and a definition never resolves to a forward declaration. |
| `CanonMap.ResolveSame` | libbpf/src/btf.c:2099-2104 | A type and what it resolves to are the same type: they unfold alike in every coherent reading. |
| `CanonMap.UnresolvedStays` | libbpf/src/btf.c:2099-2104 | If no forward declaration is mapped to a definition, none resolves to one. |
| `CanonMap.AllMappedResolve` | libbpf/src/btf.c:2649-2653 | Once every id is mapped, every id resolves to one mapped to itself. |
| `CanonMap.MapFirst` | libbpf/src/btf.c:2067 | Mapping an unprocessed id keeps the invariant. |
| `CanonMap.MapLink` | libbpf/src/btf.c:2414-2430 | Resolving a forward declaration, or mapping a struct to a canonical one, keeps the invariant. |
| `CanonMap.StaysResolved` | libbpf/src/btf.c:2414-2430 | What resolves to a definition does so after any later link. |
| `CanonMap.RoundMerges` | libbpf/src/btf.c:2395-2431 | One round of the merge resolves the forward declaration of its pair and maps the struct whose partner was mapped. |
| `CanonMap.MergedStays` | libbpf/src/btf.c:2395-2431 | Later rounds undo none of it. |
| `Dedup.Dedup.MergePair` | libbpf/src/btf.c:2395-2431 | One round of the merge on the arrays: its own pair is merged, earlier ones stay merged, the map stays sound. |
| `Dedup.Dedup.MergeHypotMap` | libbpf/src/btf.c:2388-2432 | All recorded pairs are merged, and nothing is mapped but forward declarations and unmapped structs. |
| `Dedup.Dedup.MergeEnds` | libbpf/src/btf.c:2388-2432 | After a merge either some forward declaration is resolved, or the map is one that could have come about without forward resolution. |
| `Dedup.Dedup.constructor` | libbpf/src/btf.c:1385-1442 | Void, VAR and DATASEC start mapped to themselves, everything else unprocessed; the arrays, the map and the table satisfy all invariants. |
| `Dedup.Dedup.DedupPrimTypes` | libbpf/src/btf.c:2074-2084 | Afterwards every INT, ENUM and FWD is mapped, nothing else is, and the map and the table are sound. The error means a stray void. |
| `Dedup.Dedup.DedupPrimType` | libbpf/src/btf.c:1991-2072 | One type of that pass: the error is returned exactly for void. |
| `Dedup.Dedup.DedupPrim` | libbpf/src/btf.c:2026-2071 | The type is mapped to an identical filed one, or filed because there is none. |
| `Dedup.Dedup.ResolveEnum` | libbpf/src/btf.c:2038-2059 | The candidates loop for enums: a result other than the type itself may stand for it; the type itself means that no identical enum is filed and, with forward resolution, that every compatible one was mapped to it. |
| `Dedup.Dedup.DedupEnum` | libbpf/src/btf.c:2038-2071 | The same for the whole step, including the filing. |
| `Dedup.Dedup.FindCanonical` | libbpf/src/btf.c:2026-2036 | The search loop of the passes: an identical filed descriptor, or the type itself exactly when there is none in the whole table. |
| `Dedup.CompatibleEnums` | libbpf/src/btf.c:1803-1811 | Enums that are compatible but not identical are a forward enum and a full one. |
| `Dedup.EnumsNext` | libbpf/src/btf.c:2038-2071 | One enum of the primitive pass: what is filed or resolved covers all enums so far, so a forward enum and a full one that are compatible never both stay. |
| `Dedup.Dedup.DedupStructTypes` | libbpf/src/btf.c:2512-2522 | Afterwards only reference types are unmapped, and the map came about type by type: each is left alone, made canonical for want of a duplicate, or adopted with all recorded pairs merged. |
| `Dedup.Dedup.DedupStructType` | libbpf/src/btf.c:2456-2510 | A struct or union becomes canonical exactly when no filed one of its signature agrees with it but for member types and is settled with it by some closed map; otherwise it is mapped to one that does. |
| `Dedup.Dedup.TryCandidates` | libbpf/src/btf.c:2476-2503 | The candidates loop: 0 means that no candidate is a duplicate and nothing was mapped, 1 that one was adopted. |
| `Dedup.Dedup.AdoptCandidate` | libbpf/src/btf.c:2500-2505 | The candidate is taken and all recorded pairs are merged. |
| `Dedup.TwinsSettle` | libbpf/src/btf.c:2225-2360 | Identical structs are duplicates whatever was deduplicated before, so none stays canonical twice. |
| `Dedup.SettlesExactly` | libbpf/src/btf.c:2494-2499 | A pair is settled exactly if it agrees in some map all of whose pairs do. |
| `Copies.CopyDuplicates` | libbpf/src/btf.c:2225-2360 | A copy of a struct, with whatever kinds and cycles below it, duplicates its original whatever was deduplicated before, unless forward declarations are resolved. |
| `Copies.OneOfTwoCopies` | libbpf/src/btf.c:2456-2522 | Of a struct and its copy at most one is canonical after the struct pass, whatever else the types hold. |
| `Copies.TraceCanonical` | libbpf/src/btf.c:2456-2522 | A struct is canonical only if no canonical struct was a duplicate when the pass reached it. |
| `Copies.StructsMeet` | libbpf/src/btf.c:2456-2522 | Structs that are alike but for type ids and all copies of each other have one representative. |
| `Copies.CopiesShare` | libbpf/src/btf.c:2548-2669 | Then copies of every kind have one final id: integers, enums, forward declarations, links, arrays and prototypes as well. |
| `Copies.CopiesGone` | libbpf/src/btf.c:1223-1268 | For a whole run of the type passes: originals and copies share their final ids. |
| `Copies.InverseCopies` | libbpf/src/btf.c:2225-2360 | If some types are copies of others, those are copies of them. |
| `NamedCopies.AlikeMoved` | libbpf/src/btf.c:1581-1596 | Descriptors are alike with their names as strings exactly if they are alike after string deduplication. |
| `NamedCopies.CopiesMoved` | libbpf/src/btf.c:1581-1596 | Copies with names as strings are copies after string deduplication. |
| `Dedup.NothingOverlooked` | libbpf/src/btf.c:2475-2499 | No canonical struct of another signature can be a duplicate, so searching one signature is enough. |
| `Dedup.Dedup.AddCanonical` | libbpf/src/btf.c:2505-2507 | A type without an identical filed one becomes canonical and is filed, and the table always has room. |
| `Dedup.Dedup.TableAdd` | libbpf/src/btf.c:1321-1325 | One entry is added to the candidates table. |
| `Dedup.Dedup.Candidates` | libbpf/src/btf.c:1318-1319 | Iteration by signature lists exactly the ids filed under it. |
| `DedupTable.CanonicalUnique` | libbpf/src/btf.c:2548-2654 | Two canonical ids with identical descriptors are one id. |
| `DedupTable.TableDistinct` | libbpf/src/btf.c:2548-2654 | No two canonical descriptors are identical. |
| `DedupTable.TableAdds` | libbpf/src/btf.c:2505-2507 | Filing a new canonical id keeps the table exact. |
| `DedupTable.TableEvolves` | libbpf/src/btf.c:2388-2432 | Merging a hypothetical map keeps the table exact. |
| `DedupTable.RoomyAdds` | libbpf/src/btf.c:2505-2507 | There is never more than one entry for a mapped id. |
| `Dedup.Dedup.DedupRefTypes` | libbpf/src/btf.c:2656-2669 | 0: every id is mapped, what was mapped before is mapped to the same id, there is no cycle made only of reference kinds, no two canonical descriptors are identical, and all references of reference types are canonical ids. -ELOOP: there is such a cycle. |
| `Dedup.Dedup.DedupRefType` | libbpf/src/btf.c:2548-2654 | Terminates; on success the type is mapped, the result is its canonical id and other unfinished types are as they were. -ELOOP only with a cycle of reference types. |
| `Dedup.Dedup.BeginRef` | libbpf/src/btf.c:2548-2563 | An unprocessed type is marked as in progress, and the types in progress still form one path of references. |
| `Dedup.Dedup.DedupChildren` | libbpf/src/btf.c:2565-2631 | All references of a type are resolved and rewritten, arrays by element first, prototypes by result first. |
| `Dedup.Dedup.FinishRef` | libbpf/src/btf.c:2633-2653 | The rewritten type settles on an identical canonical one, or becomes canonical. |
| `RefPass.FoundCycle` | libbpf/src/btf.c:2557-2558 | Reaching a type in progress means that the types under way close a cycle. |
| `RefPass.NoCycle` | libbpf/src/btf.c:2548-2669 | When every reference type was finished after all it refers to, there is no cycle of them. |
| `RefPass.RewriteRef` | libbpf/src/btf.c:2572-2631 | Rewriting a reference to what it resolves to keeps the state of the pass, meanings included. |
| `RefPass.HistoryRewritten` | libbpf/src/btf.c:2572-2631 | Rewriting one reference keeps track of where it came from: every reference is that of the input or the canonical id it resolves to. |
| `RefPass.HistoryFinishes` | libbpf/src/btf.c:2633-2653 | A finished type is identical to the one it is mapped to. |
| `TypeGraph.RewriteStep` | libbpf/src/btf.c:2572-2631 | A graph stays a rewriting of the input when one reference is replaced by the same type. |
| `TypeGraph.RewrittenEqual` | libbpf/src/btf.c:2633-2653 | Descriptors that became identical by rewriting were the same type all along. |
| `Dedup.Dedup.CompactTypes` | libbpf/src/btf.c:2682-2730 | The canonical descriptors move to ids 1 to k in order, and the slots become the bijection from canonical ids to new ids. The error means a void descriptor. |
| `Meaning.CanonicalsFacts` | libbpf/src/btf.c:2682-2730 | The list of canonical ids is increasing and complete. |
| `Meaning.NumberNext` | libbpf/src/btf.c:2697-2710 | One round of compaction extends the numbering. |
| `Meaning.NewIdExists` | libbpf/src/btf.c:2738-2747 | Every id has a final id not above k, and it is that of its canonical type. |
| `Dedup.Dedup.RemapTypeId` | libbpf/src/btf.c:2738-2747 | The final id of a type, or the error. |
| `Dedup.Dedup.RemapType` | libbpf/src/btf.c:2759-2850 | All references of a descriptor are renumbered and nothing else; the error is returned exactly for void or an id without a number, and then nothing is promised. |
| `Dedup.Dedup.RemapTypes` | libbpf/src/btf.c:2852-2862 | After compaction remapping never fails, and every descriptor is the renumbered canonical one. |
| `BtfTypes.EqualEnum` | libbpf/src/btf.c:1777-1796 | Decides equality of name, header, size and all enumerators. |
| `BtfTypes.CompatEnum` | libbpf/src/btf.c:1803-1811 | The same, but a forward enum is compatible with any enum of its name and size. |
| `BtfTypes.ShallowEqualStruct` | libbpf/src/btf.c:1839-1858 | Decides equality but for member types. |
| `BtfTypes.CompatFnProto` | libbpf/src/btf.c:1963-1983 | Decides equality of prototypes but for types. |
| `BtfTypes.EqualFnProto` | libbpf/src/btf.c:1937-1956 | Decides equality of prototypes with all types. |
| `BtfTypes.EqualValue` | libbpf/src/btf.c:1734-1956 | On the kinds that are compared as a whole, the comparison of each kind decides identity of the descriptors. |
| `BtfTypes.HashValue` | libbpf/src/btf.c:1724-1928 | The hash of each kind is a function of the descriptor, so identical descriptors are filed together. |
| `BtfTypes.HashStruct` | libbpf/src/btf.c:1818-1832 | The struct hash does not depend on member types. |
| `BtfTypes.HashFnProto` | libbpf/src/btf.c:1915-1928 | The prototype hash, parameters in order. |
| `BtfTypes.ShapeAndRefs` | libbpf/src/btf.c:2759-2850 | A descriptor is determined by its references and the rest. |
| `BtfTypes.ShallowSignature` | libbpf/src/btf.c:1818-1858 | Structs that are equal but for member types have one signature. |
| `StringDedup.StringSection.DedupStrings` | libbpf/src/btf.c:1609-1722 | Succeeds exactly when every visited offset is 0 or starts a string; then the new section holds exactly the referenced strings, pairwise distinct, the empty one at offset 0, is not longer than the old one, and every visited offset was moved to its string. On failure nothing changes. By fields: names of types, members, enumerators and parameters, and the section, file and source line of line records read as before, and all else is unchanged. |
| `StringDedup.DedupSpells` | libbpf/src/btf.c:1450-1535 | Field by field, every type and all line information read the same strings after the offsets were rewritten. |
| `StringDedup.MovedSpells` | libbpf/src/btf.c:1450-1505 | One descriptor: its name and those of its members, enumerators and parameters. |
| `StringDedup.CellsAreFields` | libbpf/src/btf.c:1450-1535 | The visited offsets are exactly those fields of types and of line information. |
| `StringDedup.MovedMeaning` | libbpf/src/btf.c:1581-1596 | A moved offset reads the same string, and two moved offsets are equal exactly when their strings are. |
| `StringDedup.StringSection.MarkAll` | libbpf/src/btf.c:1450-1535 | The first visit marks exactly the strings of the visited cells, and fails exactly when one is not found. |
| `StringDedup.StringSection.RemapAll` | libbpf/src/btf.c:1450-1535 | The second visit rewrites every visited cell in place and nothing else, and cannot fail. |
| `StringDedup.MarkNames` | libbpf/src/btf.c:1564-1579 | Marking one cell after the other. |
| `StringDedup.RemapNames` | libbpf/src/btf.c:1581-1596 | Rewriting one cell after the other. |
| `StringDedup.EmittedFacts` | libbpf/src/btf.c:1659-1701 | The emitted section: every string that was marked, once, at the offset recorded for all its occurrences. |
| `Strings.NameReads` | libbpf/src/btf.c:624-630 | A name is the bytes from its offset up to the next null byte. |
| `Strings.BuildIndex` | libbpf/src/btf.c:1624-1644 | The index lists exactly the starts of the strings, in order. |
| `Strings.SortByContent` | libbpf/src/btf.c:1537-1543 | A sorted permutation, by string. |
| `Strings.SortByOffset` | libbpf/src/btf.c:1545-1553 | A sorted permutation, by offset. |
| `Strings.FindByOffset` | libbpf/src/btf.c:1573-1576 | The binary search finds the entry exactly when there is one. |
| `Strings.EmitGroups` | libbpf/src/btf.c:1666-1701 | One copy is written for each group of equal strings with a used member, and all members of the group get its offset. |
| `Strings.RelocatedOnce` | libbpf/src/btf.c:1666-1701 | Two entries get the same new offset exactly when they are the same string. |
| `Strings.JoinReads` | libbpf/src/btf.c:1666-1701 | Reading the emitted section at the start of an emitted string gives that string. |
| `Strings.GroupBytes` | libbpf/src/btf.c:1687-1704 | A group of equal strings occupies at least the bytes of one copy, so the section does not grow. |
| `Strings.IndexBytes` | libbpf/src/btf.c:1624-1644 | The indexed strings make up the whole section. |
| `Strings.AtMostTotal` | libbpf/src/btf.c:1537-1543 | The order of the first sort is total and antisymmetric. |
| `TypeSection.ParseTypeSec` | libbpf/src/btf.c:180-202 | Succeeds exactly on the sections that can be walked from descriptor to descriptor until one ends at the end of the section or behind it, with their offsets; if it ends where the section ends, they tile it. |
| `TypeSection.TiledWalks` | libbpf/src/btf.c:180-202 | A tiling is such a walk that ends with the section, and the other way round. |
| `TypeSection.OvershootAccepted` | libbpf/src/btf.c:180-202 | A section of twelve bytes that holds the beginning of a sixteen-byte descriptor is accepted, although nothing tiles it. |
| `TypeSection.TiledUnique` | libbpf/src/btf.c:180-202 | A section is tiled in one way at most. |
| `TypeSection.RawBtf.Compact` | libbpf/src/btf.c:2682-2730 | In-place compaction of the bytes: what remains is tiled by the canonical descriptors, each with its bytes unchanged and in order, the string section follows unchanged, and the slots hold the numbering. |
| `TypeSection.MemMove` | libbpf/src/btf.c:2705 | Moving overlapping bytes downwards. |
| `TypeSection.PackMove` | libbpf/src/btf.c:2701-2709 | One round of compaction: the cursor never passes the descriptor it reads, and what is still to be read is untouched. |
| `TypeSection.StringsMove` | libbpf/src/btf.c:2722-2726 | Moving the strings behind the last descriptor disturbs no descriptor. |
| `TypeSection.KeptDecode` | libbpf/src/btf.c:2682-2730 | A kept descriptor decodes to what it was, which ties the bytes to the descriptors of the passes. |
| `TypeSection.DecodedWellFormed` | libbpf/src/btf.c:145-178 | Decoding a descriptor gives a well-formed one with as many members, enumerators or parameters as it says. |
| `TypeSection.DecodeEncode` | libbpf/include/uapi/linux/btf.h:31-165 | A descriptor written out as the format lays it out, word by word, has the size that its header says and decodes to itself. |
| `TypeSection.SizeWritten` | libbpf/src/btf.c:145-178 | The size computed from the header is that of what was written. |
| `TypeSection.DataReads` | libbpf/include/uapi/linux/btf.h:98-165 | Every word of the data is read at its place. |
| `HashMaps.HashMap.constructor` | libbpf/src/hashmap.c:32-43 | An empty table. |
| `HashMaps.HashMap.Insert` | libbpf/src/hashmap.c:142-192 | ADD, SET, UPDATE and APPEND as steps on the multiset of entries, with the reported entry; every entry stays in its bucket, the capacity a power of two and the load at most 3/4. -ENOMEM needs 2^59 entries. |
| `HashMaps.InsertRefinesMap` | libbpf/src/hashmap.h:66-125 | ADD, SET and UPDATE refine insertion into a finite map, error codes included. |
| `HashMaps.HashMap.Find` | libbpf/src/hashmap.c:194-206 | A value is found exactly when its key is there, and it is that of the map the table represents. |
| `HashMaps.HashMap.Delete` | libbpf/src/hashmap.c:208-228 | One entry of the key is removed, exactly when there is one. |
| `HashMaps.RemoveRepresents` | libbpf/src/hashmap.c:208-228 | Removing the entry of a key removes the key from the map. |
| `HashMaps.HashMap.Grow` | libbpf/src/hashmap.c:88-116 | Growth keeps the multiset of entries and their placement, and leaves room. |
| `HashMaps.HashMap.PushChain` | libbpf/src/hashmap.c:105-108 | Relinking one chain, front to back. |
| `HashMaps.GrowthReversesKey` | libbpf/src/hashmap.c:105-108 | After growth the entries of a key come in reverse order, so the last inserted one is not found first (against the comment in hashmap.h, lines 77 to 79). |
| `HashMaps.GrowthTwiceRestores` | libbpf/src/hashmap.c:105-108 | A second growth restores the order of the entries of a key. |
| `HashMaps.SpreadReverses` | libbpf/src/hashmap.c:105-108 | Each new chain is the reverse of the old order of its entries. |
| `HashMaps.SpreadContents` | libbpf/src/hashmap.c:88-116 | Redistribution loses and duplicates nothing. |
| `HashMaps.SpreadPlacement` | libbpf/src/hashmap.c:88-116 | Every entry ends up in the bucket of its hash. |
| `HashMaps.HashMap.FindEntry` | libbpf/src/hashmap.c:118-140 | The first entry of the key in its chain, or none exactly when the table has none. |
| `HashMaps.HashMap.AddEntry` | libbpf/src/hashmap.c:18-23 | Pushes to the front of one chain. |
| `HashMaps.HashMap.DeleteFromBucket` | libbpf/src/hashmap.c:25-30 | Unlinks one entry. |
| `HashMaps.HashMap.KeyEntries` | libbpf/src/hashmap.h:162-168 | Iteration by key visits every entry of the key as often as it is there, and no other. |
| `HashMaps.MatchingConcat` | libbpf/src/hashmap.h:162-168 | The entries of a key are all in one bucket. |
| `HashMaps.HashBits` | libbpf/src/hashmap.h:20-24 | The bucket number is below the capacity. |
| `BtfLookup.SkipModsAndTypedefs` | libbpf/src/libbpf.c:1044-1058 | The end of the chain of qualifiers and typedefs. |
| `BtfLookup.SkipLaws` | libbpf/src/libbpf.c:1044-1058 | Exactly qualifiers and typedefs are looked through. |
| `BtfLookup.SkipTwice` | libbpf/src/libbpf.c:1044-1058 | Skipping again changes nothing. |
| `BtfLookup.ResolveSize` | libbpf/src/btf.c:227-279 | The loop computes the size function, at most 32 levels deep. |
| `BtfLookup.SizeFromExact` | libbpf/src/btf.c:227-279 | A result is the true size times the element count and fits 32 bits; -EINVAL means that there is no size within the depth. |
| `BtfLookup.ResolvedExact` | libbpf/src/btf.c:227-279 | The same for a whole call. |
| `BtfLookup.SizeLaws` | libbpf/src/btf.c:227-279 | Sizes by kind: stated by integers, enums, structs, unions and sections, eight for pointers, that of what is named for qualifiers, typedefs and variables, as many times the element as an array has, and none otherwise. |
| `BtfLookup.OrderedIsWfBtf` | libbpf/src/btf.c:2548-2669 | Types that deduplication accepts can be looked through: the order in which it finished the reference types shows that no chain of qualifiers, typedefs and arrays runs in a circle. |
| `CoreSpecs.CoreSpec.Parse` | libbpf/src/libbpf.c:2515-2615 | The spec is what walking the target type along the indices gives, with the same error where the walk fails; more than 64 indices are refused. |
| `CoreSpecs.CoreSpec.Match` | libbpf/src/libbpf.c:2866-2932 | In any case the rounds it goes through, one for each local accessor, turn the empty spec into the one it leaves, and it stops at the first that fails. If no member can mislead the search: 1 means that the raw spec is the one path of compatible members and elements that corresponds to the local spec, and re-parsing it gives the same accessors and bit offset; 0 means that there is no such path. A negative result means a full raw spec, or that the element just reached has no size or one that an int cannot hold. |
| `CoreSpecs.MatchItself` | libbpf/src/libbpf.c:2866-2932 | A spec parsed from an access string matches its own types: the match returns 1 with the same raw indices, accessors and bit offset, if member names are unique, field types are such that a field may have, sizes fit, and the path leaves room for the nesting. |
| `CoreSpecs.OwnMatchRuns` | libbpf/src/libbpf.c:2881-2929 | No round of such a match stops. |
| `CoreSpecs.OwnSpecLeads` | libbpf/src/libbpf.c:2556-2612 | The path a spec was parsed from leads along its accessors. |
| `CoreSpecs.RoomLeft` | libbpf/src/libbpf.c:2790-2860 | With room for the nesting and no incompatible member of the name, the search does not give up for length. |
| `CoreSpecs.WayOn` | libbpf/src/libbpf.c:2881-2928 | Where a path leads all the way, every round has a way on. |
| `CoreSpecs.CoreSpec.MatchStep` | libbpf/src/libbpf.c:2881-2929 | One round: for a field what the search makes of the type reached so far, misleading or not; for an index the element. With the same conclusions about paths, re-parsing and negative results. |
| `CoreSpecs.CoreSpec.MatchElement` | libbpf/src/libbpf.c:2895-2928 | The round for an index: the first counts whole objects, the others elements of the array reached; 0 exactly if there is no such element. |
| `CoreSpecs.CoreSpec.MatchMember` | libbpf/src/libbpf.c:2790-2860 | The recursive search with its pushes and pops leaves exactly the outcome of the search function; the raw spec bounds the recursion. |
| `CoreSpecs.CoreSpec.TryMember` | libbpf/src/libbpf.c:2816-2857 | One member: undone, found, or given up. |
| `CoreSpecs.SearchExplained` | libbpf/src/libbpf.c:2790-2860 | What a search says: found means a compatible hit, with exactly its path and offset if it is the first hit in search order and too long a path otherwise; missing means that there is no hit, or that the first one is incompatible. |
| `CoreSpecs.SearchDecides` | libbpf/src/libbpf.c:2790-2860 | With no misleading member the search finds the only compatible hit, or there is none. |
| `CoreSpecs.TrackGoesOn` | libbpf/src/libbpf.c:2881-2928 | A path leads all the way exactly when it continues the only way on from each accessor. |
| `CoreSpecs.TrackEnds` | libbpf/src/libbpf.c:2881-2928 | At the end the built path is the only one. |
| `CoreSpecs.TrackStops` | libbpf/src/libbpf.c:2881-2928 | Where there is no way on, no path leads all the way. |
| `CoreSpecs.HitParses` | libbpf/src/libbpf.c:2562-2591 | Parsing the path to a member gives one accessor, of that member, at its offset. |
| `CoreSpecs.ParseAppend` | libbpf/src/libbpf.c:2556-2612 | Parsing goes on from where it stands. |
| `CoreSpecs.FieldReparses` | libbpf/src/libbpf.c:2866-2932 | A matched field keeps the spec equal to its own re-parse. |
| `CoreSpecs.ElementReparses` | libbpf/src/libbpf.c:2893-2928 | So does a matched array element. |
| `CoreSpecs.UniqueHitsFit` | libbpf/src/libbpf.c:2790-2860 | Member names that are unique after flattening cannot mislead the search. |
| `CoreSpecs.AmbiguousMisleads` | libbpf/src/libbpf.c:2846-2857 | With an incompatible member of the name inside an anonymous struct, the search leaves raw indices that do not even parse, because the hit is not undone. |
| `CoreSpecs.AmbiguousMatch` | libbpf/src/libbpf.c:2866-2932 | A run of the matcher on that target reports a match with a raw spec that does not parse, although the path to the member found does. |
| `CoreSpecs.CoreSpec.ParseStep` | libbpf/src/libbpf.c:2562-2611 | One index: a member, an array element, or the error. |
| `CoreSpecs.StepLaws` | libbpf/src/libbpf.c:2562-2611 | What one index means by kind: a member at its bit offset, an element as many times the element size behind the start, or an error. |
| `CoreSpecs.MemberOffsetPacked` | libbpf/src/btf.h:268-276 | With the kind flag the bit offset of a member is the lower three bytes of its word. |
| `CoreSpecs.FieldsAreCompat` | libbpf/src/libbpf.c:2721-2772 | Decides compatibility of the field types, through arrays. |
| `CoreSpecs.CompatibleExactly` | libbpf/src/libbpf.c:2721-2772 | Which field types are compatible, by kind: as many arrays deep, two structs or unions in any mix, two pointers, two integers of offset 0, two enums or two forward declarations whose names agree up to the flavour or of which one has none; and no others. |
| `CoreSpecs.SelfCompatible` | libbpf/src/libbpf.c:2721-2772 | A field type is compatible with itself unless it is a bitfield integer or of a kind that no field has. |
| `CoreSpecs.IntOffsetPacked` | libbpf/include/uapi/linux/btf.h:85-87 | The offset of an integer is bits 16 to 23 of its encoding. |
| `CoreSpecs.EssentialNameLen` | libbpf/src/libbpf.c:2629-2639 | The loop from the end computes the length of the name before its flavour. |
| `CoreSpecs.EssentialLenMeaning` | libbpf/src/libbpf.c:2617-2639 | The name is cut at the last flavour separator, or kept whole if there is none. |
| `CoreSpecs.FlavorCut` | libbpf/src/libbpf.c:2617-2639 | A name of a part, three underscores and another part without a flavour is cut to the first part. |
| `CoreSpecs.NoFlavor` | libbpf/src/libbpf.c:2617-2639 | A name that does not split in this way is kept whole. |
| `Bitfields.RelocatedRead` | libbpf/src/libbpf.c:2934-3039 | For every offset, width and memory, on either byte order: the relocated load shifted by the relocated counts is the field, zero- or sign-extended. |
| `Bitfields.ReadMember` | libbpf/src/libbpf.c:2934-3039 | With all five values relocated, loading and shifting gives the member itself, on either byte order: as wide as its bitfield or its type, and sign-extended exactly for enums and for integers with the sign bit in their encoding. |
| `Bitfields.LoadAndShift` | libbpf/src/bpf_core_read.h:49-59 | Load and shift of any covering layout yield exactly the bits of the field. |
| `Bitfields.FieldBit` | libbpf/src/bpf_core_read.h:49-59 | Bit by bit: each bit of a field is one bit of one byte, counted up from the low end on little-endian machines and down from the high end on big-endian ones. |
| `Bitfields.SameNumber` | libbpf/src/bpf_core_read.h:49-59 | The extended word is the same number as the field, in two's complement if it has a sign. |
| `Bitfields.CalcFieldRelo` | libbpf/src/libbpf.c:2934-3039 | The relocated values are those of the layout, cut to 32 bits; each error happens exactly in its case; which values are validated. |
| `Bitfields.FieldLoad` | libbpf/src/libbpf.c:2967-2995 | The load for a member, -E2BIG exactly when no load that the loop tries covers the bitfield. |
| `Bitfields.WidenLoad` | libbpf/src/libbpf.c:2974-2987 | The widening loop terminates with the field inside an aligned load of the storage size or of one of its doublings, or finds that none up to eight bytes will do. |
| `Bitfields.Widened` | libbpf/src/libbpf.c:2974-2987 | A widened load covers the field; without one, even eight bytes do not. |
| `Bitfields.WidenedSmallest` | libbpf/src/libbpf.c:2974-2987 | It is the smallest aligned load that covers the field. |
| `Bitfields.ScalarLayout` | libbpf/src/libbpf.c:2967-3029 | For members that fill a machine word both shift counts stay below 64. |
| `Bitfields.ReadProbed` | libbpf/src/bpf_core_read.h:49-59 | The probed macro computes the extended field, on either byte order. |
| `Bitfields.ReadDirect` | libbpf/src/bpf_core_read.h:67-83 | The direct macro falls through to the eight-byte load, whatever the size. |
| `Bitfields.DirectLittle` | libbpf/src/bpf_core_read.h:67-83 | On little-endian machines that still yields the field. |
| `Bitfields.DirectBig` | libbpf/src/bpf_core_read.h:67-83 | On big-endian machines it yields other bits: those displaced by the difference of the sizes. |
| `Bitfields.DirectBigExact` | libbpf/src/bpf_core_read.h:67-83 | On big-endian machines the direct macro is right for all memories exactly if the load is eight bytes long. |
| `Bitfields.DirectBigFails` | libbpf/src/bpf_core_read.h:67-83 | For every shorter load and every field in it: the memory with only the last bit of the field set, from which the macro reads 0. |
| `PerfRing.Reader.ReadSimple` | libbpf/src/libbpf.c:5720-5765 | The callback gets exactly the records between tail and head, in order and unwrapped, until it stops; the stored tail is just past the last record it got. |
| `PerfRing.Reader.ReadRecord` | libbpf/src/libbpf.c:5733-5755 | One record, byte for byte, also when it wraps. |
| `PerfRing.Reader.CopyWrapped` | libbpf/src/libbpf.c:5736-5755 | The copy joins the end of the buffer and its beginning, in a buffer that is large enough. |
| `PerfRing.RecordInRing` | libbpf/src/libbpf.c:5733-5755 | A record of the stream lies in the ring in one piece or in two. |
| `PerfRing.AtHead` | libbpf/src/libbpf.c:5732 | The wrapped tail equals the wrapped head only when all records are read. |
| `XskRings.RingSafety` | libbpf/src/xsk.h:48-164 | Over every sequence of reserve, write, submit, peek and release of a well-behaved pair, from a ring that holds anything: what the consumer got are, position by position, the values last written there, or what the slot held before, as the list of operations alone tells; in order, once each and none that was not submitted. How far each side has come is what books kept from the operations alone say, and no reserved slot is one that is submitted but not released. |
| `XskRings.RunRing` | libbpf/src/xsk.h:48-164 | The 32-bit code of both sides on a ring: over every run in which both behave, the loads return the values that the operations wrote to the positions taken, in order and once each, the counters are those of the books, and no slot that may be written is one that may still be read. |
| `XskRings.RunExplained` | libbpf/src/xsk.h:48-164 | In every reachable state the published entry of a position is what the operations last wrote there, or what the slot held one round earlier. |
| `XskRings.StepBooked` | libbpf/src/xsk.h:85-164 | One operation moves the counters as the books say, in spite of the cached ones. |
| `XskRings.Execute` | libbpf/src/xsk.h:48-164 | A run of calls on both sides follows the run of the unbounded state: both sides and the shared memory represent its end, and the loads deliver what it delivers. |
| `XskRings.StepBoth` | libbpf/src/xsk.h:48-164 | One call on either side leaves both sides representing the next state. |
| `XskRings.PeekAndRead` | libbpf/src/xsk.h:57-154 | A peek, and the loads of the slots it hands out. |
| `XskRings.RunDelivers` | libbpf/src/xsk.h:138-164 | From any state, a run delivers the submitted items between the two peek positions. |
| `XskRings.StepKeeps` | libbpf/src/xsk.h:85-164 | Each step keeps the invariant, and nothing submitted or taken is taken back. |
| `XskRings.LateRead` | libbpf/src/xsk.h:73-78 | A slot that is not released reads as what was submitted, whatever happened in between. |
| `XskRings.ReserveExact` | libbpf/src/xsk.h:85-126 | A reservation succeeds exactly when there is room, in spite of the cached counter. |
| `XskRings.PeekExact` | libbpf/src/xsk.h:104-154 | A peek gives at most what is asked for and there, and nothing exactly when nothing is asked for or there; fewer than asked for only if it gives all in sight, or all there is when nothing was. |
| `XskRings.SlotOfWrapped` | libbpf/src/xsk.h:48-78 | Masking a wrapped 32-bit counter gives the slot of the unbounded position. |
| `XskRings.Producer.constructor` | libbpf/src/xsk.c:274-292 | The producer starts with the whole ring free: its cached consumer counter is ahead by the size. |
| `XskRings.Producer.NbFree` | libbpf/src/xsk.h:85-102 | Wrapped counters and cache represent the abstract state. |
| `XskRings.Producer.Reserve` | libbpf/src/xsk.h:116-126 | Refines the abstract reservation, with the index modulo 2^32. |
| `XskRings.Producer.WriteSlot` | libbpf/src/xsk.h:48-70 | Writing a reserved entry. |
| `XskRings.Producer.Submit` | libbpf/src/xsk.h:128-136 | Refines the abstract submission. |
| `XskRings.Consumer.constructor` | libbpf/src/xsk.c:661-686 | The consumer starts with nothing seen. |
| `XskRings.Consumer.NbAvail` | libbpf/src/xsk.h:104-114 | Refines the abstract count of visible entries. |
| `XskRings.Consumer.Peek` | libbpf/src/xsk.h:138-154 | Refines the abstract peek. |
| `XskRings.Consumer.ReadSlot` | libbpf/src/xsk.h:57-78 | Reading a peeked entry gives the item submitted there. |
| `XskRings.Consumer.Release` | libbpf/src/xsk.h:156-164 | Refines the abstract release. |
| `Declarators.RoundTrip` | libbpf/src/btf_dump.c:1054-1335 | The text of every legal chain, parsed by the declarator grammar of section 6.7.6 of ISO/IEC 9899:2011, is the chain: up to the order of qualifiers, qualifiers of arrays, and the conventions for empty and variadic parameter lists. |
| `Declarators.PrintInjective` | libbpf/src/btf_dump.c:1054-1335 | Chains that print alike are the same declaration. |
| `Declarators.DeclAppend` | libbpf/src/btf_dump.c:1183-1331 | One layer more changes a declaration in one place: a qualifier falls on the base or the last pointer, anything else is added outside. |
| `Declarators.LegalAppend` | libbpf/src/btf_dump.c:1183-1331 | When a chain stays legal with one layer more. |
| `Declarators.DeclKeepsApart` | libbpf/src/btf_dump.c:1155-1335 | No two words touch in the output, so spacing never changes its tokens. |
| `Declarators.ReadDeclarator` | libbpf/src/btf_dump.c:1163-1335 | Parsing what is left of a chain recovers it, whatever stops the declarator. |
| `Declarators.ReadDirect` | libbpf/src/btf_dump.c:1238-1324 | The same for arrays and functions, with the suffixes still to come. |
| `Declarators.ReadParams` | libbpf/src/btf_dump.c:1296-1322 | Parameter lists read back, with (void) for an empty one. |
| `Declarators.ReadParamList` | libbpf/src/btf_dump.c:1308-1322 | Parameters and the ellipsis, separated by commas. |
| `Declarators.StripChain` | libbpf/src/btf_dump.c:1163-1335 | Blanks apart, the output is the declarator from the inside out. |
| `DeclEmitter.BtfDump.EmitTypeDecl` | libbpf/src/btf_dump.c:1054-1127 | The stack-based emitter appends exactly the declaration of the layers of the type and leaves the stack as it was, whatever nesting of prototypes shares it. If C can declare the type, what it appended reads back, under the declarator grammar, as what the kinds say: const, volatile and restrict as themselves, a pointer to the target, as many elements as the array has, and the result with the named parameters and an ellipsis exactly for a trailing void behind other parameters. |
| `DeclEmitter.PrintedReads` | libbpf/src/btf_dump.c:1054-1335 | The same for the printed form of any type: parsed, it is the declaration that the descriptor kinds say. |
| `DeclEmitter.ChainDeclares` | libbpf/src/btf_dump.c:1062-1103 | The chain of a type that C can declare is legal and stands for the declaration its kinds say. |
| `DeclEmitter.ParamsDeclare` | libbpf/src/btf_dump.c:1303-1316 | So do the parameters of a prototype, one by one. |
| `DeclEmitter.BtfDump.PushChain` | libbpf/src/btf_dump.c:1062-1103 | The pushed ids are the layers of the type, base last. |
| `DeclEmitter.BtfDump.EmitTypeChain` | libbpf/src/btf_dump.c:1163-1335 | The loop over the stack prints the chain that is left on it. |
| `DeclEmitter.BtfDump.EmitLayer` | libbpf/src/btf_dump.c:1183-1331 | One round: done, or the rest of the chain is still to be printed. |
| `DeclEmitter.BtfDump.EmitMods` | libbpf/src/btf_dump.c:1129-1153 | Prints the qualifiers on top of the stack and pops them. |
| `DeclEmitter.BtfDump.EmitMod` | libbpf/src/btf_dump.c:1129-1153 | One round: the qualifier on top of the stack is printed and popped, or there is none and nothing is printed. |
| `DeclEmitter.BtfDump.EmitArray` | libbpf/src/btf_dump.c:1238-1282 | Qualifiers are dropped; parentheses appear exactly around what is neither a name nor another array. |
| `DeclEmitter.BtfDump.EmitFuncProto` | libbpf/src/btf_dump.c:1283-1324 | The prototype, its parameters printed by recursive calls above the current stack. |
| `DeclEmitter.BtfDump.EmitParams` | libbpf/src/btf_dump.c:1303-1320 | All parameters, with the trailing void of a variadic list as an ellipsis. |
| `DeclEmitter.BtfDump.EmitName` | libbpf/src/btf_dump.c:1155-1161 | The name, set apart unless a pointer precedes it. |
| `DeclEmitter.VoidConventions` | libbpf/src/btf_dump.c:1303-1316 | The parameter lists that come from type data never have the one form that would read back differently. |
| `OrderTypes.BtfDump.DumpType` | libbpf/src/btf_dump.c:198-235 | Over all dumps, failed ones included, every definition but a typedef is queued once, and every named struct or union comes behind all that its members need in place, behind pointers too, save what they need only behind stale pointers. Only a failed dump turns pointers stale: such that its type leads to and that were not ordered before, nor what they point to. Without a type loop and a stray void no dump of a known type fails. A call changes only what its type leads to. In terms of chains of uses, by kinds: what a chain from a queued struct, union or typedef asks for, a named struct or union in full or an enum or forward declaration, is queued before it; what one from the dumped type asks for is queued; and a failure for a loop exhibits a chain by value from a type to itself. |
| `OrderTypes.BtfDump.OrderType` | libbpf/src/btf_dump.c:403-544 | Terminates when every cycle passes through a struct or union; what it has ordered, queued, left or refused. What is needed, but for what only stale pointers need, is ordered whatever failed before; pointers end up ordered even if what they point to fails, and are stale then. |
| `OrderTypes.BtfDump.OrderComposite` | libbpf/src/btf_dump.c:448-476 | Structs and unions: weak links stop at a name, members are ordered first. |
| `OrderTypes.BtfDump.OrderTypedef` | libbpf/src/btf_dump.c:492-510 | Typedefs, which are queued only behind a strong link, and behind every definition they name. |
| `OrderTypes.BtfDump.OrderFuncProto` | libbpf/src/btf_dump.c:516-534 | The result first, then every parameter. |
| `OrderTypes.BtfDump.OrderEnum` | libbpf/src/btf_dump.c:477-490 | Enums and forward declarations are queued unless anonymous and part of another type. |
| `OrderTypes.QueueIsSorted` | libbpf/src/btf_dump.c:403-544 | In the queue a named struct stands exactly once, and behind everything that it needs in place around the stale pointers. |
| `OrderTypes.ChainNeeds` | libbpf/src/btf_dump.c:403-544 | The end of a chain of uses is needed at its start: members unless of a named struct behind a pointer, elements, targets, results and parameters. |
| `OrderTypes.NeededByChain` | libbpf/src/btf_dump.c:403-544 | Whatever is needed ends such a chain. |
| `OrderTypes.QueueDeclares` | libbpf/src/btf_dump.c:403-544 | In an ordered queue, what chains from a queued type ask for comes before it. |
| `OrderTypes.LoopIsChain` | libbpf/src/btf_dump.c:459-466 | A type loop is a chain by value from a struct, union or typedef back to itself. |
| `OrderTypes.InPlaceExact` | libbpf/src/btf_dump.c:440-443 | When the whole queue is in order in place: exactly if whatever a queued type needs in place behind a stale pointer is queued before it. |
| `OrderTypes.StatesInPlaceExact` | libbpf/src/btf_dump.c:440-443 | The same for the marks: all that ordered types need in place is ordered exactly if all that stale pointers need is. |
| `OrderTypes.AroundOrBehind` | libbpf/src/btf_dump.c:403-544 | What is needed in place is needed around the stale pointers or behind one of them. |
| `OrderTypes.ThroughStale` | libbpf/src/btf_dump.c:403-544 | Where a stale pointer is needed, all that is needed in place behind it is. |
| `OrderTypes.StalePointer` | libbpf/src/btf_dump.c:440-443 | The order in place can fail: after a dump that fails behind a pointer, the next dump queues a struct that needs this pointer, and what it needs in place behind it is never queued. |
| `OrderTypes.OrderAround` | libbpf/src/btf_dump.c:403-544 | What is ordered around some pointers is ordered around more of them; so the order by value, which stops at every pointer, always holds. |
| `OrderTypes.QueueInOrder` | libbpf/src/btf_dump.c:468-475 | Queueing a type whose members are settled keeps the order. |
| `OrderTypes.BlockedByMember` | libbpf/src/btf_dump.c:459-466 | A failing member means a loop through this type or a block from outside. |
| `OrderTypes.MarkReferenced` | libbpf/src/btf_dump.c:249-309 | Marks exactly the types that a field of another one names: what links, functions and variables are built from, elements and indices, members, parameters and section variables, but not the result of a prototype; fails exactly on a stray void. |
| `OrderTypes.MarksAreNames` | libbpf/src/btf_dump.c:249-309 | The marked types of a descriptor are those its fields name. |
| `ProgLinfos.ProgLinfo.Dissect` | libbpf/src/bpf_prog_linfo.c:22-86 | Accepts exactly the records that can be cut at the function addresses, and then the arrays are that cut with its block sizes. |
| `ProgLinfos.ProgLinfo.LfindAddrFunc` | libbpf/src/bpf_prog_linfo.c:181-216 | The record found lies in the block behind the skipped ones and starts at or below the address, the next one above it; if the records of the block do not descend, which is certain but for the last function, it is the greatest such record, and without an answer there is none. |
| `ProgLinfos.LocatedIsGreatest` | libbpf/src/bpf_prog_linfo.c:203-215 | Why: nothing behind the record found comes down to the address again. |
| `ProgLinfos.LocatedExact` | libbpf/src/bpf_prog_linfo.c:203-215 | The record located is the greatest at or below the address, for all addresses, exactly if no record lies below the one before it. |
| `ProgLinfos.CutCovers` | libbpf/src/bpf_prog_linfo.c:22-86 | Every record is in exactly one block. |
| `ProgLinfos.CutIncreasing` | libbpf/src/bpf_prog_linfo.c:22-86 | No block is empty. |
| `ProgLinfos.FunctionFound` | libbpf/src/bpf_prog_linfo.c:53-69 | Meeting the next function address ends the block, or shows that there is no cut. |
| `ProgLinfos.FunctionGoesOn` | libbpf/src/bpf_prog_linfo.c:70-73 | A record that does not ascend shows that there is no cut. |
| `BtfExts.SetupInfo` | libbpf/src/btf.c:775-862 | Accepts exactly the sections that are aligned, inside the data, large enough, with a sound record size, and tiled by non-empty blocks. |
| `BtfExts.ForEachSec` | libbpf/src/libbpf_internal.h:111-115 | The iteration visits every block and ends exactly at the last byte. |
| `BtfExts.BlocksInside` | libbpf/src/btf.c:998-1044 | No block leaves the section. |
| `BtfExts.BlocksAdjacent` | libbpf/src/btf.c:998-1044 | The blocks follow one another from the first byte to the last. |
| `BtfExts.RelocInfo` | libbpf/src/btf.c:998-1044 | Appends the block of the first section of the name, record by record, or reports that there is none, as for an empty section. |
| `BtfExts.AppendBlock` | libbpf/src/btf.c:1022-1040 | Every record is copied, with its instruction offset divided by 8 and moved by the base. |
| `BtfExts.MovedMeaning` | libbpf/src/btf.c:1031-1037 | A moved record differs in its first word only. |
| `BtfExts.FindMeaning` | libbpf/src/btf.c:1013-1020 | The first block of the name, or none exactly when no block has it. |
| `Jhash.BytesAndWords` | headers/jhash.h:68-142 | On a little-endian machine the byte hash of the bytes of a word array equals its word hash, for every array below 2^32 bytes. |
| `Jhash.ShortForms` | headers/jhash.h:146-170 | The one-, two- and three-word forms equal the word hash of arrays of those lengths. |
| `Jhash.SameBlocks` | headers/jhash.h:77-142 | The block loops agree from any state. |
| `Jhash.Hash` | headers/jhash.h:68-105 | The loop and the fall-through tail compute the byte hash. |
| `Jhash.Hash2` | headers/jhash.h:114-142 | The loop and its tail compute the word hash. |
| `Jhash.AddBytes` | headers/jhash.h:83-103 | The bytes added one by one are a little-endian word, zero-padded. |
| `Words.MaskIsMod` | libbpf/src/xsk.h:48-78 | Masking with a power of two less one is the remainder. |

## Left out

- The programs under `main/` and `common/`, the XDP programs, header parsers and rule checks.
- ELF files, kernel probes, program and map loading, links, pinning, netlink and socket setup: foreign calls.
- Allocation failures, `free` and pointer aliasing. The one modelled limit is the table that cannot double past 2^60 buckets.
- The hash chains of the table are sequences, and the table's `buckets` a sequence of them, not linked nodes; `hashmap__clear` is not modelled.
- The quality of hash functions: only that they are functions of what they hash.
- Deduplication assumes that ids are in range, that forward declarations carry type 0 and that the string section begins and ends with a null byte, as parsing establishes.
- Dedup.Dedup.DedupStructType: says when two structs are merged, in terms of hypothetical maps; that equivalent structs are always merged is false (`Limits.StructsStayApart`).
- Copies.CopiesGone: covers copies whose structs are alike, but for type ids, to nothing but copies; otherwise a struct may settle on another one first, and the comparison can keep its copies apart (`Limits.StructsStayApart`). With forward resolution it covers types without forward declarations of a defined tag, since their resolution can pull copies apart; which pairs are accepted then is stated by `CheckGraphs`.
- Dedup.Dedup.Run: with forward resolution, types as they stand are kept exactly if no forward declaration has become a definition in the output. The input alone decides this unless it has no compatible forward and full enums, but both an announced definition and twins; then it depends on which comparisons succeed, of which the struct pass is stated step by step but not in terms of the input.
- TypeSection.RawBtf.Compact: the byte-level compaction and the passes on descriptors are proved separately and share the numbering and the decoding; rewriting ids inside the bytes is done on descriptors only.
- TypeSection.ParseTypeSec: assumes that the headers it looks at are inside the memory, as they are when eight more bytes follow the section or when descriptors tile it.
- The library sorts and binary search are modelled as an insertion sort and a binary search with the contracts of `qsort` and `bsearch`.
- CoreSpecs.CoreSpec.Parse: the access string is already split into its indices, none of them negative, as compilers write it: a negative one passes the source's check and reads in front of the members. Reading the digits is not modelled.
- CoreSpecs.MatchItself: excludes what makes such a match fail or differ in the code: member names that are not unique after flattening, bitfield integers with an offset on the path, unnamed array members, paths that end in an anonymous member, elements without a size, and paths too long for the nesting of anonymous members.
- CoreSpecs.CoreSpec.Match: target types are assumed free of cycles through qualifiers, typedefs and arrays alone, on which the source would not terminate.
- Candidate search, instruction patching and the loading of kernel types around the matcher.
- Declarators.RoundTrip: base types, and bodies printed in place, are one token by id; the ambiguity between typedef names and parameter names is the scanner's. Chains that contain an unexpected kind are excluded.
- DeclEmitter.PrintedReads: is about types that C can declare; the emitter also prints functions returning arrays or functions, arrays of functions and qualified functions, which the grammar reads otherwise.
- The text of struct bodies, padding, enums, name-conflict suffixes and the emission of the queue.
- OrderTypes.QueueIsSorted: of what a prototype needs it covers only what its types need behind a pointer.
- OrderTypes.BtfDump.DumpType: does not claim that a typedef is queued only once.
- XskRings.RingSafety: whole calls are the steps, under sequential consistency and with a peer that respects its own counters; the kernel's side is the same code.
- PerfRing.Reader.ReadSimple: records are multiples of eight bytes with their size in the header, as the kernel writes them; the callback is a function from the record's number to its result.
- ProgLinfos.ProgLinfo.LfindAddrFunc: records are addressed by index instead of by byte offset; `bpf_prog_linfo__lfind` and the constructor's checks are not modelled.
- BtfExts.SetupInfo: the header of .BTF.ext is parsed elsewhere; the size of the appended buffer stays below 2^32.
- Bitfields.ReadMember: is about members of one, two, four or eight bytes and bitfields in such storage, as the macros are.
- Bitfields.CalcFieldRelo: the storage of a bitfield has a size, by which the source divides, of less than 2^29 - 32 bytes so that its bits can be counted in 32 bits; the signedness is asked of integers and enums only, since for other kinds the source reads the word behind the descriptor.
- Jhash.Hash: words are loaded little-endian; unaligned access and `initval` chaining by callers are not modelled.
