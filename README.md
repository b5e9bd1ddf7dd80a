# A verified model of the Helix compiler's sequential core

Helix (earlier called Trophy) is a small systems language whose compiler,
written in C#, lexes and parses the source, type-checks it against
persistent type frames, tracks aliasing and lifetimes through several
graphs, optimises a lowered form, and emits C in which every array access is
bounds-checked and every allocation goes to a region. This project models
the compiler's own data structures and algorithms in Dafny, one module per
source file, and proves what each promises:

- **Lexing** (`Lexer`): the tokenizer object with its position and line
  counter, every scanner, `GetToken` and `PeekToken`.
- **Names and scopes** (`AnalysisScope`, `TrophyNames`): identifier paths
  and innermost-first lookup; the parser's name table with its `$`-joined
  paths and shadowing test.
- **Type frames** (`TypeFrames`, `ImmutableMap`): the immutable frame
  builders, refinement joins and the temporary-name counter.
- **Alias and lifetime analysis** (`AliasRoots`, `AliasMembers`,
  `AliasStores`, `AliasingTrackers`, `AliasingTrackerProperties`,
  `DataFlow`, `LifetimeGraphs`, `ControlFlow`, `CaptureFlow`): the root
  maps and their strong and weak updates, and the data-flow, lifetime,
  control-flow and capture graphs with their searches.
- **Collections and runtime values** (`ValueLists`, `Int32`,
  `IndexedData`, `LinkedData`): the value-equality list with its 32-bit
  hash, and the two encodings of lists as dictionaries.
- **C generation** (`CWriters`, `CStatementWriters`, `CExpressions`,
  `Decimal`): temporary and path names, statement emission with the
  `_region_min` lifetime join and its memo, and the expression printer
  that cancels `&` against `*`.
- **Optimisers** (`DeadCode`, `DeadCodeProperties`, `StateMachines`,
  `BoolAtoms`): backward dead-code elimination, jump threading through
  pure states, and the comparison-atom normaliser.
- **Emitted C** (`CPlayground`): the selection sort, binary search and
  merge sort the compiler produced for a sample program, with their bounds
  checks and unsigned 64-bit arithmetic.

Source that updates state in place is modelled as classes whose methods
are proved against specification functions; immutable source is modelled
as datatypes and functions. Where the code and its evident intent differ,
both are modelled and the difference is proved (see "Findings").
External effects are parameters: the order in which a hash set or
dictionary is enumerated, element hash codes, the syntax trees' own code
generation, and the region runtime. `Wrappers` holds `Option` and `Result`.

## Model

| member | source | states |
|---|---|---|
| Lexer.RunEnd | src/helix/Parsing/Lexer.cs:138-141 | the end of the longest run of one character class from a position: every character before it is in the class and the character at it is not (or the text ends) |
| Lexer.HelperScan | src/helix/Parsing/Lexer.cs:286-341 | one step of GetTokenHelper: a successful step leaves the position inside the text, and the line grows by one exactly on a newline |
| Lexer.TokenIsNeverWhitespace | src/helix/Parsing/Lexer.cs:348-362 | GetToken never returns a Whitespace token; it returns EOF only once the text is used up, located at the end position with length 0 |
| Lexer.BlanksAreSkipped | src/helix/Parsing/Lexer.cs:349-356 | blanks (whitespace other than a newline) before a token do not change what GetToken returns or the state it leaves |
| Lexer.FinalComparisonIsEndOfFile | src/helix/Parsing/Lexer.cs:70-132 | `<`, `=`, `>` or `!` as the last character (after blanks) raises EndOfFile at its own position |
| Lexer.UnexpectedCharacterIffUnhandled | src/helix/Parsing/Lexer.cs:338-340 | a step raises UnexpectedCharacter at its own position exactly when the character is outside the handled set |
| Lexer.UnexpectedCharacterRaised | src/helix/Parsing/Lexer.cs:338-340 | an unhandled character after blanks makes GetToken fail with UnexpectedCharacter at that character |
| Lexer.CommentIsSkipped | src/helix/Parsing/Lexer.cs:199-211 | a `//` comment runs to the next newline (or the end) and GetToken from it equals GetToken from that newline |
| Lexer.CommentIsWhitespace | src/helix/Parsing/Lexer.cs:199-211 | a `//` step yields one Whitespace token covering the comment and stops on its last character |
| Lexer.LexWord | src/helix/Parsing/Lexer.cs:155-176 | a word lexes as a whole to one token with its own text and location; its kind is the keyword's kind for a keyword, BoolLiteral for true/false and Identifier otherwise |
| Lexer.HelperOnLetter | src/helix/Parsing/Lexer.cs:328-330 | a letter starts an identifier scan |
| Lexer.LexNumber | src/helix/Parsing/Lexer.cs:134-153 | a digit run lexes to a WordLiteral whose text is exactly the run when its value fits an int, and raises InvalidNumber with that text otherwise |
| Lexer.StepLines | src/helix/Parsing/Lexer.cs:331-334 | a successful step advances the line counter by the number of newlines it consumed |
| Lexer.LineCountsNewlines | src/helix/Parsing/Lexer.cs:348-362 | after GetToken the line counter has grown by exactly the number of newlines between the old and new position |
| Lexer.Lexer.constructor | src/helix/Parsing/Lexer.cs:66-68 | a new lexer starts at position 0 on line 1 |
| Lexer.Lexer.GetOperator | src/helix/Parsing/Lexer.cs:70-132 | the one- or two-character operators (`=`/`==`, `<`/`<=`, `>`/`>=`, `!`/`!=` with EndOfFile when the text ends; `+`, `*`, `%` with their assignments) leave the token, position and line OperatorScan gives |
| Lexer.Lexer.GetMinusOrMinusAssignment | src/helix/Parsing/Lexer.cs:239-256 | `-`, `-=` or `->`: token, position and line as MinusScan gives |
| Lexer.Lexer.GetSlashOrCommentOrDivideAssignment | src/helix/Parsing/Lexer.cs:199-223 | a comment, `/=` or `/`: token, position and line as SlashScan gives |
| Lexer.Lexer.GetNumber | src/helix/Parsing/Lexer.cs:134-153 | the digit loop leaves the token and the position on the last digit as NumberScan gives |
| Lexer.Lexer.GetIdentifier | src/helix/Parsing/Lexer.cs:155-177 | the word loop leaves the token and the position on the last word character as IdentifierScan gives |
| Lexer.Lexer.GetCharLiteral | src/helix/Parsing/Lexer.cs:179-197 | `'c'` with a letter or digit gives the WordLiteral of its code; anything else raises UnexpectedCharacter, as CharLiteralScan gives |
| Lexer.Lexer.GetTokenHelper | src/helix/Parsing/Lexer.cs:286-341 | one step: token, position and line as HelperScan gives |
| Lexer.Lexer.GetToken | src/helix/Parsing/Lexer.cs:348-362 | the loop skipping whitespace leaves the token, position and line TokenScan gives |
| Lexer.Lexer.PeekToken | src/helix/Parsing/Lexer.cs:368-377 | returns what GetToken would return and, when no exception is raised, restores the position and line, so a following GetToken returns the same token |
| AnalysisScope.IdentifierPath.Append | Attempt16/Analysis/Scope.cs:23-25 | appending grows the segments by one, keeping the old ones and putting the new segment last |
| AnalysisScope.IdentifierPath.Pop | Attempt16/Analysis/Scope.cs:31-38 | popping fails exactly on the empty path; otherwise appending the dropped segment gives the path back |
| AnalysisScope.ZipEqualIsPrefix | Attempt16/Analysis/Scope.cs:45-47 | the zip-and-fold comparison of a shorter path holds exactly when it is a prefix of the longer one |
| AnalysisScope.StartsWithIsPrefix | Attempt16/Analysis/Scope.cs:40-48 | StartsWith is prefix testing; it is reflexive and the empty path is a prefix of every path |
| AnalysisScope.PopAppend | Attempt16/Analysis/Scope.cs:23-38 | Pop(Append(p, s)) == p |
| AnalysisScope.PathHash | Attempt16/Analysis/Scope.cs:54-72 | equal paths have equal hashes; the sum-based hash ignores segment order, so `a.b` and `b.a` collide |
| AnalysisScope.InnermostIsLongestPrefix | Attempt16/Analysis/Scope.cs:128-140 | the lookup finds nothing exactly when no enclosing prefix binds the name, and otherwise finds the binding at the longest enclosing prefix (the innermost one) |
| AnalysisScope.FindInnermost | Attempt16/Analysis/Scope.cs:102-114 | the pop-and-try loop returns the innermost binding of the name |
| AnalysisScope.FindVariable | Attempt16/Analysis/Scope.cs:128-140 | FindVariable returns the innermost variable binding of the name |
| AnalysisScope.FindType | Attempt16/Analysis/Scope.cs:102-114 | FindType(name) returns the innermost type binding of the name |
| AnalysisScope.FindTypeByVarPath | Attempt16/Analysis/Scope.cs:116-126 | n leading `%var` segments wrap the exact lookup of the rest in VariableType n times; a missing rest finds nothing, and an empty rest throws |
| AnalysisScope.AppendVariableThenFind | Attempt16/Analysis/Scope.cs:146-152 | AppendVariable throws exactly when the name is already bound at the current path to different information; after it succeeds the name is found with the new information and only the variables gain that key |
| AnalysisScope.AppendTypeVariableThenFind | Attempt16/Analysis/Scope.cs:154-160 | AppendTypeVariable throws exactly when the name is already bound at the current path to a different type; after it succeeds the name's type is found and the variables are unchanged |
| TrophyNames.JoinSplit | trophyc-new/Parser.cs:44-53 | joining the pieces of a split path with the same separator gives the path back |
| TrophyNames.SplitJoin | trophyc-new/Parser.cs:57-61 | splitting the join of separator-free pieces gives the pieces back |
| TrophyNames.SplitNoSeparator | trophyc-new/Parser.cs:44-49 | a path without `$` splits into itself alone, so it never shadows |
| TrophyNames.NameTable.constructor | trophyc-new/Parser.cs:12-19 | a new table has no functions, structs, unions or variables |
| TrophyNames.NameTable.AddFunction | trophyc-new/Parser.cs:205 | adding a function signature succeeds exactly for a new path; the path is then a function and the other tables are unchanged |
| TrophyNames.NameTable.AddStruct | trophyc-new/Parser.cs:282 | adding a struct signature succeeds exactly for a new path; the other tables are unchanged |
| TrophyNames.NameTable.AddUnion | trophyc-new/Parser.cs:285 | adding a union signature succeeds exactly for a new path; the other tables are unchanged |
| TrophyNames.NameTable.AddVariable | trophyc-new/Parser.cs:19 | the variable set reports whether the path was new and then holds it; the other tables are unchanged |
| TrophyNames.NameTable.TryGetPath | trophyc-new/Parser.cs:21-42 | a path is found iff some table holds it, and it resolves to Function before Struct before Union before Variable |
| TrophyNames.NameTable.TryFindPath | trophyc-new/Parser.cs:57-72 | finds nothing iff no prefix of the scope (longest to empty) joined with the name is in a table; otherwise returns the path at the longest such prefix and what it names |
| TrophyNames.NameTable.DoesPathShadow | trophyc-new/Parser.cs:44-55 | a single-segment path never shadows; a longer one shadows iff the declared name is found from some prefix of the scope that drops the last two segments |
| TrophyNames.ShadowCandidates | trophyc-new/Parser.cs:44-55 | for three or more segments, the candidates tried are exactly the name joined after each prefix of all but the last two segments |
| TrophyNames.ShadowTopLevel | trophyc-new/Parser.cs:44-55 | for two segments, the scope is the single empty segment, so the candidates are `$name` and `name` |
| TypeFrames.EmptyFrame | src/helix/TypeChecking/TypeFrame.cs:41-53 | a new frame has the empty scope and no declarations, function, struct or union signatures, refinements, loop frames or promoted variables |
| TypeFrames.WithScope | src/helix/TypeChecking/TypeFrame.cs:77-88 | appends one segment to the scope and changes nothing else |
| TypeFrames.PopScope | src/helix/TypeChecking/TypeFrame.cs:90-103 | throws exactly when the scope is empty; otherwise drops its last segment and changes nothing else |
| TypeFrames.PopScopeOfWithScope | src/helix/TypeChecking/TypeFrame.cs:77-103 | popping a scope just entered gives the frame back |
| TypeFrames.WithDeclaration | src/helix/TypeChecking/TypeFrame.cs:105-122 | throws exactly when the path is already declared; otherwise only Declarations changes, gaining the path |
| TypeFrames.AddSignature | src/helix/TypeChecking/TypeFrame.cs:128 | the immutable Add succeeds exactly for a new path or an equal signature, and the result maps the path to the signature |
| TypeFrames.WithFunctionSignature | src/helix/TypeChecking/TypeFrame.cs:124-135 | adds the function signature (throwing on a different one at the same path) and changes nothing else |
| TypeFrames.WithStructSignature | src/helix/TypeChecking/TypeFrame.cs:137-148 | adds the struct signature (throwing on a different one at the same path) and changes nothing else |
| TypeFrames.WithUnionSignature | src/helix/TypeChecking/TypeFrame.cs:150-161 | adds the union signature (throwing on a different one at the same path) and changes nothing else |
| TypeFrames.WithVariableRefinement | src/helix/TypeChecking/TypeFrame.cs:163-178 | is the identity when the path is promoted; otherwise sets the path's refinement and changes nothing else |
| TypeFrames.WithVariablePromotion | src/helix/TypeChecking/TypeFrame.cs:180-200 | throws exactly when the path has no refinement; otherwise adds the path to the promoted set, replaces its refinement with the generalised type and changes nothing else |
| TypeFrames.RefinementAfterPromotion | src/helix/TypeChecking/TypeFrame.cs:163-200 | after a promotion, a refinement of the same path leaves the frame unchanged |
| TypeFrames.WithBreakFrame | src/helix/TypeChecking/TypeFrame.cs:202-213 | adds one break frame and changes nothing else |
| TypeFrames.WithContinueFrame | src/helix/TypeChecking/TypeFrame.cs:215-226 | adds one continue frame and changes nothing else |
| TypeFrames.PopLoopFrames | src/helix/TypeChecking/TypeFrame.cs:228-239 | empties the break and continue frames and changes nothing else |
| TypeFrames.PopLoopFramesForgetsLoop | src/helix/TypeChecking/TypeFrame.cs:202-239 | loop frames recorded before PopLoopFrames are forgotten, and PopLoopFrames is idempotent |
| TypeFrames.CombineLoopFramesWith | src/helix/TypeChecking/TypeFrame.cs:286-297 | unions the break and continue frames of both and changes nothing else |
| TypeFrames.CombinedKey | src/helix/TypeChecking/TypeFrame.cs:250-271 | one key of the join is removed exactly when it is promoted in either frame |
| TypeFrames.JoinRefinements | src/helix/TypeChecking/TypeFrame.cs:246-272 | the key loop fails iff some key's outcome fails, and otherwise holds exactly the kept keys with their outcome values |
| TypeFrames.CombineRefinementsWith | src/helix/TypeChecking/TypeFrame.cs:245-284 | fails iff some key's join fails (a missing refinement or types that do not unify); otherwise drops every promoted key, keeps every other key of either frame with its joined value, unions the promoted sets and changes nothing else |
| TypeFrames.CombineWithItself | src/helix/TypeChecking/TypeFrame.cs:250-271 | with a reflexive unifier, joining a frame with itself keeps each unpromoted refinement and drops each promoted one |
| TypeFrames.DoValuesMatchWith | src/helix/TypeChecking/TypeFrame.cs:299-315 | true exactly when both frames map the same keys to equal refinements |
| TypeFrames.TypeFrame.constructor | src/helix/TypeChecking/TypeFrame.cs:7 | a new frame object starts its temporary counter at 0 |
| TypeFrames.TypeFrame.GetVariableName | src/helix/TypeChecking/TypeFrame.cs:241-243 | returns `$t_` followed by the counter and increments the counter |
| TypeFrames.TempNamesDistinct | src/helix/TypeChecking/TypeFrame.cs:241-243 | different counter values give different temporary names |
| AliasMembers.MemberFactory.CreateLocation | src/helix.middle/Interpreting/AliasingTracker.cs:405-416 | the location built is the parent wrapped in one member access per name of the chain, outermost last |
| AliasMembers.ChainDepth | src/helix.middle/Interpreting/AliasingTracker.cs:405-414 | a chain of n names adds exactly n member accesses to its parent, and the result is unknown exactly when the parent is |
| AliasMembers.ChainLocationInjective | src/helix.middle/Interpreting/AliasingTracker.cs:405-416 | below named variables, two member locations are equal only when the variable names and the member chains are equal |
| AliasMembers.MembersShape | src/helix.middle/Interpreting/AliasingTracker.cs:381-393 | the member walk yields the value itself first, with the chain walked so far, and every chain it yields extends that chain |
| AliasMembers.MembersOfShape | src/helix.middle/Interpreting/AliasingTracker.cs:384-391 | every chain yielded below a struct's members extends the previous chain with the name of one of those members |
| AliasMembers.MembersDistinct | src/helix.middle/Interpreting/AliasingTracker.cs:379-393 | in a type whose struct member names are distinct, the walk never yields the same chain twice |
| AliasMembers.MembersOfDistinct | src/helix.middle/Interpreting/AliasingTracker.cs:384-391 | the same for the walk over a struct's member list: distinct names give distinct chains |
| AliasRoots.Canonical | src/helix.middle/Interpreting/AliasStore.cs:113 | an unknown location (or a member of one) is stored as the one unknown location; a known one is kept |
| AliasRoots.Normalize | src/helix.middle/Interpreting/AliasStore.cs:113 | the stored set keeps every known location given, and holds the unknown location exactly when some given location is unknown |
| AliasRoots.SetReferenced | src/helix.middle/Interpreting/AliasStore.cs:108-116 | setting the referenced roots of an unknown location is a no-op; otherwise the location maps to the normalised set |
| AliasRoots.GetReferenced | src/helix.middle/Interpreting/AliasStore.cs:118-125 | an unknown location references {Unknown}; a known one succeeds exactly when it has an entry, and returns that entry |
| AliasRoots.SetBoxed | src/helix.middle/Interpreting/AliasStore.cs:127-140 | setting the boxed roots of an unknown location is a no-op; a type that does not alias l-values stores the empty set; otherwise the normalised set |
| AliasRoots.GetBoxed | src/helix.middle/Interpreting/AliasStore.cs:142-153 | a type that does not alias l-values boxes nothing; otherwise an unknown location boxes {Unknown} and a known one must have an entry |
| AliasRoots.SetKeepsCanonical | src/helix.middle/Interpreting/AliasStore.cs:108-140 | after any Set*, every stored set holds known locations and at most the one unknown location |
| AliasRoots.GetAfterSet | src/helix.middle/Interpreting/AliasStore.cs:108-153 | reading a location just written returns what was written (or {Unknown} / the empty set on the no-op paths) |
| AliasRoots.Merge | src/helix.middle/Interpreting/AliasStore.cs:61-87 | the merged map has exactly the keys present in both maps |
| AliasRoots.MergeProperties | src/helix.middle/Interpreting/AliasStore.cs:61-106 | the merge is commutative and idempotent and each key's set includes both inputs' sets; WasModifiedBy is symmetric and s.WasModifiedBy(s) is false |
| AliasRoots.MergeOfUnmodified | src/helix.middle/Interpreting/AliasStore.cs:61-106 | merging with a map that was not modified keeps every shared key's set |
| AliasRoots.MergeRoots | src/helix.middle/Interpreting/AliasStore.cs:68-84 | the key loop builds exactly the merge: shared keys mapped to the union of both sets |
| AliasRoots.ModifiedRoots | src/helix.middle/Interpreting/AliasStore.cs:93-103 | the loop reports a change exactly when some shared key maps to different sets |
| AliasStores.AliasStore.constructor | src/helix.middle/Interpreting/AliasStore.cs:33-45 | a new store has no referenced and no boxed roots |
| AliasStores.AliasStore.CreateScope | src/helix.middle/Interpreting/AliasStore.cs:57-59 | a new, separate store with the same two maps |
| AliasStores.AliasStore.MergeWith | src/helix.middle/Interpreting/AliasStore.cs:61-87 | a new store whose maps are the merges of both stores' maps |
| AliasStores.AliasStore.WasModifiedBy | src/helix.middle/Interpreting/AliasStore.cs:89-106 | true exactly when a shared key of either map maps to different sets |
| AliasStores.AliasStore.SetReferencedRoots | src/helix.middle/Interpreting/AliasStore.cs:108-116 | the referenced map becomes SetReferenced of the old one; the boxed map is unchanged |
| AliasStores.AliasStore.SetBoxedRoots | src/helix.middle/Interpreting/AliasStore.cs:127-140 | the boxed map becomes SetBoxed of the old one; the referenced map is unchanged |
| AliasStores.ScopeRoundTrip | src/helix.middle/Interpreting/AliasStore.cs:57-106 | a store compared with its fresh scope reports no change, and merging them gives the store's own maps |
| AliasStores.ScopeIsSeparate | src/helix.middle/Interpreting/AliasStore.cs:57-59 | a Set* on a scope leaves the store it was copied from unchanged |
| AliasingTrackers.KnownOf | src/helix.middle/Interpreting/AliasingTracker.cs:115-116 | the known roots of a set are exactly its members that are not the unknown location |
| AliasingTrackers.InvalidateAll | src/helix.middle/Interpreting/AliasingTracker.cs:115-117 | invalidating a root set adds every known root as a key, gives it {unknown} (or nothing when the type does not alias l-values) and keeps every other entry |
| AliasingTrackers.WeakUpdate | src/helix.middle/Interpreting/AliasingTracker.cs:139-146 | the weak update fails exactly when the type aliases l-values and some known target has no boxed entry |
| AliasingTrackers.WeakOutcome | src/helix.middle/Interpreting/AliasingTracker.cs:140-145 | a known target fails exactly when it aliases and has no entry; otherwise it boxes its old roots together with the assigned ones (nothing when it does not alias) |
| AliasingTrackers.WeakPartPointwise | src/helix.middle/Interpreting/AliasingTracker.cs:139-146 | a map that agrees with each target's outcome on the targets and with the old map elsewhere is the weak update |
| AliasingTrackers.SingletonElement | src/helix.middle/Interpreting/AliasingTracker.cs:127 | a set of one element has only one element, so `targets.First()` is that element |
| AliasingTrackers.AliasingTracker.constructor | src/helix.middle/Interpreting/AliasingTracker.cs:42-44 | a fresh tracker has no referenced roots and no boxed roots |
| AliasingTrackers.AliasingTracker.Copy | src/helix.middle/Interpreting/AliasingTracker.cs:46-54 | the private constructor takes both dictionaries as given |
| AliasingTrackers.AliasingTracker.CreateScope | src/helix.middle/Interpreting/AliasingTracker.cs:56-58 | a new scope is a fresh tracker holding the same two dictionaries |
| AliasingTrackers.AliasingTracker.MergeWith | src/helix.middle/Interpreting/AliasingTracker.cs:60-86 | the merged tracker is fresh and keeps only the keys both trackers have, each with the union of both root sets |
| AliasingTrackers.AliasingTracker.WasModifiedBy | src/helix.middle/Interpreting/AliasingTracker.cs:88-105 | true exactly when some key both trackers share maps to different root sets, in either dictionary |
| AliasingTrackers.AliasingTracker.InvalidateRoots | src/helix.middle/Interpreting/AliasingTracker.cs:115-117 | the loop over the roots produces exactly InvalidateAll |
| AliasingTrackers.AliasingTracker.WeakAssign | src/helix.middle/Interpreting/AliasingTracker.cs:139-146 | the loop over the targets produces exactly WeakUpdate, failing when a read of a missing entry would |
| AliasingTrackers.AliasingTracker.StepRoots | src/helix.middle/Interpreting/AliasingTracker.cs:107-330 | one member iteration of any Register operation, on the two dictionaries, is exactly Step |
| AliasingTrackers.AliasingTracker.InvalidateStep | src/helix.middle/Interpreting/AliasingTracker.cs:111-118 | one member of one argument of RegisterInvoke is exactly the Invalidate step |
| AliasingTrackers.AliasingTracker.AssignStep | src/helix.middle/Interpreting/AliasingTracker.cs:123-148 | one member of RegisterAssignment is exactly the Assign step: a strong update of a single known target, a weak update otherwise |
| AliasingTrackers.AliasingTracker.DoStep | src/helix.middle/Interpreting/AliasingTracker.cs:111-118 | applying one step to the tracker either fails as Step does or leaves the tracker in Step's state |
| AliasingTrackers.AliasingTracker.RunMembers | src/helix.middle/Interpreting/AliasingTracker.cs:123-148 | the member loop fails exactly when the fold of its steps fails, and otherwise leaves the tracker in the fold's state |
| AliasingTrackers.AliasingTracker.RegisterFunctionParameter | src/helix.middle/Interpreting/AliasingTracker.cs:151-158 | the tracker ends in the state of the parameter fold over the type's members, which never fails |
| AliasingTrackers.AliasingTracker.RegisterLocal | src/helix.middle/Interpreting/AliasingTracker.cs:160-172 | the declaration fails exactly when the local fold fails, and otherwise the tracker is in the fold's state |
| AliasingTrackers.AliasingTracker.RegisterLocalWithoutAliasing | src/helix.middle/Interpreting/AliasingTracker.cs:174-181 | the tracker ends in the state of the no-aliasing fold, which never fails |
| AliasingTrackers.AliasingTracker.RegisterNewStruct | src/helix.middle/Interpreting/AliasingTracker.cs:183-211 | an initialiser without a field fails the assertion and changes nothing; otherwise the result is that of the root fold followed by the initialiser fold |
| AliasingTrackers.AliasingTracker.RegisterNewUnion | src/helix.middle/Interpreting/AliasingTracker.cs:213-215 | a union registers exactly as a local assigned from the value |
| AliasingTrackers.AliasingTracker.RegisterMemberAccessReference | src/helix.middle/Interpreting/AliasingTracker.cs:217-233 | the result fails or ends exactly as the member-reference fold over the member type |
| AliasingTrackers.AliasingTracker.RegisterMemberAccess | src/helix.middle/Interpreting/AliasingTracker.cs:235-251 | the result fails or ends exactly as the member-value fold over the member type |
| AliasingTrackers.AliasingTracker.RegisterArrayIndexReference | src/helix.middle/Interpreting/AliasingTracker.cs:253-271 | the tracker ends in the index-reference fold's state, which never fails: every element reference is unknown |
| AliasingTrackers.AliasingTracker.RegisterArrayIndex | src/helix.middle/Interpreting/AliasingTracker.cs:273-291 | the tracker ends in the index-value fold's state, which never fails |
| AliasingTrackers.AliasingTracker.RegisterArrayLiteral | src/helix.middle/Interpreting/AliasingTracker.cs:293-295 | an array literal leaves both dictionaries unchanged |
| AliasingTrackers.AliasingTracker.RegisterDereferencedPointerReference | src/helix.middle/Interpreting/AliasingTracker.cs:297-307 | fails when the pointer's boxed roots cannot be read; otherwise ends exactly as the fold that makes each result member reference the same member of every pointed-to root |
| AliasingTrackers.AliasingTracker.RegisterDereferencedPointer | src/helix.middle/Interpreting/AliasingTracker.cs:309-319 | fails when the pointer's boxed roots cannot be read; otherwise ends exactly as the fold that makes each result member box the same member of every pointed-to root |
| AliasingTrackers.AliasingTracker.RegisterAddressOf | src/helix.middle/Interpreting/AliasingTracker.cs:321-330 | fails exactly when the target has no referenced roots; otherwise only the result's boxed entry changes, to the target's roots |
| AliasingTrackers.AliasingTracker.RegisterAssignment | src/helix.middle/Interpreting/AliasingTracker.cs:122-149 | the assignment fails exactly when the assign fold fails, and otherwise the tracker is in the fold's state |
| AliasingTrackers.AliasingTracker.RegisterInvoke | src/helix.middle/Interpreting/AliasingTracker.cs:107-120 | mismatched argument and type counts fail the assertion and change nothing; otherwise the result is that of the invoke fold over every argument |
| AliasingTrackers.FoldFailurePropagates | src/helix.middle/Interpreting/AliasingTracker.cs:123-148 | once the member loop has failed on a prefix, the whole loop fails: a failed assertion stops the operation |
| AliasingTrackers.FieldsFailurePropagates | src/helix.middle/Interpreting/AliasingTracker.cs:194-210 | the same for the initialiser loop of RegisterNewStruct |
| AliasingTrackers.InvokeFailurePropagates | src/helix.middle/Interpreting/AliasingTracker.cs:110-119 | the same for the argument loop of RegisterInvoke |
| AliasingTrackers.ParameterNeverFails | src/helix.middle/Interpreting/AliasingTracker.cs:151-158 | declaring a parameter never fails, whatever the state |
| AliasingTrackers.LocalWithoutAliasingNeverFails | src/helix.middle/Interpreting/AliasingTracker.cs:174-181 | declaring a local without aliasing never fails |
| AliasingTrackers.StructRootNeverFails | src/helix.middle/Interpreting/AliasingTracker.cs:188-192 | the root loop of RegisterNewStruct never fails |
| AliasingTrackers.IndexNeverFails | src/helix.middle/Interpreting/AliasingTracker.cs:253-291 | the two array-index operations never fail |
| AliasingTrackerProperties.DistinctPrefix | src/helix.middle/Interpreting/AliasingTracker.cs:381-393 | a prefix of a walk with distinct chains has distinct chains |
| AliasingTrackerProperties.LastLocationIsNew | src/helix.middle/Interpreting/AliasingTracker.cs:405-416 | in a walk with distinct chains, the last member's location below a variable is known and differs from every earlier member's |
| AliasingTrackerProperties.DeclarationFold | src/helix.middle/Interpreting/AliasingTracker.cs:151-181 | after declaring a parameter or a local without aliasing, each member location references exactly itself and boxes {unknown} or nothing accordingly |
| AliasingTrackerProperties.FunctionParameterEffect | src/helix.middle/Interpreting/AliasingTracker.cs:151-158 | after RegisterFunctionParameter every member of the parameter references itself and boxes the unknown location, or nothing when its type does not alias |
| AliasingTrackerProperties.LocalWithoutAliasingEffect | src/helix.middle/Interpreting/AliasingTracker.cs:174-181 | after RegisterLocalWithoutAliasing every member references itself and boxes nothing |
| AliasingTrackerProperties.LocalStep | src/helix.middle/Interpreting/AliasingTracker.cs:161-171 | one member of RegisterLocal sets only the local's own location and reads only the value's |
| AliasingTrackerProperties.LocalDoneExtend | src/helix.middle/Interpreting/AliasingTracker.cs:161-171 | the member loop of RegisterLocal, extended by one member, keeps the value's locations and completes one more local member |
| AliasingTrackerProperties.LocalFold | src/helix.middle/Interpreting/AliasingTracker.cs:160-172 | the member loop of RegisterLocal succeeds exactly when every aliasing member of the value has boxed roots, and then leaves the value's entries alone |
| AliasingTrackerProperties.LocalEffect | src/helix.middle/Interpreting/AliasingTracker.cs:160-172 | RegisterLocal fails exactly when an aliasing member of the value has no boxed roots; otherwise every member of the local references itself and boxes what the same member of the value boxes |
| AliasingTrackerProperties.IndexValueFold | src/helix.middle/Interpreting/AliasingTracker.cs:273-291 | the member loop of RegisterArrayIndex never fails, keeps every reference and makes each result member box {unknown} or nothing |
| AliasingTrackerProperties.ArrayIndexEffect | src/helix.middle/Interpreting/AliasingTracker.cs:273-291 | after RegisterArrayIndex every member of the result boxes the unknown location, whatever the array held; references are untouched |
| AliasingTrackerProperties.StrongUpdate | src/helix.middle/Interpreting/AliasingTracker.cs:127-133 | assigning through a reference to exactly one known root replaces that root's boxed roots by the assigned ones and changes nothing else |
| AliasingTrackerProperties.WeakUpdateKeeps | src/helix.middle/Interpreting/AliasingTracker.cs:134-147 | assigning through several or unknown roots keeps what each known target boxed, adds the assigned roots, and changes nothing outside the targets |
| DataFlow.AddEdge | src/helix/Analysis/Flow/DataFlowGraph.cs:17-18 | adding to the default dictionary extends exactly the one lifetime's edge set and leaves every other lifetime's edges as they were |
| DataFlow.FollowedIsTarget | src/helix/Analysis/Flow/DataFlowGraph.cs:119-124 | whatever the traversal pushes from an edge is the end of some edge of the graph |
| DataFlow.ReachSelf | src/helix/Analysis/Flow/DataFlowGraph.cs:102-115 | every lifetime other than None reaches itself, so it is the first thing a traversal from it reports |
| DataFlow.ReachExtend | src/helix/Analysis/Flow/DataFlowGraph.cs:119-124 | following one more followed edge from a reachable lifetime gives a reachable lifetime |
| DataFlow.ReachTransitive | src/helix/Analysis/Flow/DataFlowGraph.cs:92-94 | outliving is transitive: what a reachable lifetime reaches is reachable |
| DataFlow.PathInside | src/helix/Analysis/Flow/DataFlowGraph.cs:105-126 | a walk that starts inside a set closed under followed edges ends inside it, which is why the traversal misses nothing |
| DataFlow.PushFollowed | src/helix/Analysis/Flow/DataFlowGraph.cs:119-124 | the stack keeps its old contents underneath, and gains the end of every followed edge and nothing else |
| DataFlow.SkipPreserves | src/helix/Analysis/Flow/DataFlowGraph.cs:106-110 | popping a visited lifetime or None keeps the traversal's soundness and closure |
| DataFlow.VisitPreserves | src/helix/Analysis/Flow/DataFlowGraph.cs:111-124 | visiting a new lifetime and pushing its followed edges keeps soundness and closure, and the lifetime is reachable |
| DataFlow.ListedVisit | src/helix/Analysis/Flow/DataFlowGraph.cs:112-115 | recording a newly visited lifetime keeps the result the visited set, each once, the start first |
| DataFlow.BoundedVisit | src/helix/Analysis/Flow/DataFlowGraph.cs:119-124 | everything pushed stays within the start and the edge targets, so the loop terminates |
| DataFlow.BoundedPop | src/helix/Analysis/Flow/DataFlowGraph.cs:106 | a popped lifetime lies within that bound |
| DataFlow.TraverseStep | src/helix/Analysis/Flow/DataFlowGraph.cs:105-126 | one pass of the loop keeps every invariant and either visits a new lifetime or shrinks the stack |
| DataFlow.TraverseGraph | src/helix/Analysis/Flow/DataFlowGraph.cs:96-129 | the result holds every lifetime reachable from the start along followed edges and nothing else, each once, never None, the start first |
| DataFlow.MirrorAdd | src/helix/Analysis/Flow/DataFlowGraph.cs:29-51 | adding an edge to the graph and its turned-round copy to the reverse graph keeps the reverse graph an exact mirror |
| DataFlow.SymmetricAddOther | src/helix/Analysis/Flow/DataFlowGraph.cs:41-51 | a dependence or member edge keeps the equality edges paired |
| DataFlow.SymmetricAddPair | src/helix/Analysis/Flow/DataFlowGraph.cs:29-30 | an equality edge added in both directions keeps the equality edges paired |
| DataFlow.AddEdgeCommutes | src/helix/Analysis/Flow/DataFlowGraph.cs:32-33 | edges added from two different lifetimes can be added in either order |
| DataFlow.Reverse | src/helix/Analysis/Flow/DataFlowGraph.cs:63-69 | the reversed walk has the same length and holds the walk's lifetimes back to front |
| DataFlow.PrecursorIffOutlives | src/helix/Analysis/Flow/DataFlowGraph.cs:63-69 | in a mirrored pair of graphs, b reaches a in the reverse graph exactly when a reaches b in the graph |
| DataFlow.ReversedPath | src/helix/Analysis/Flow/DataFlowGraph.cs:63-69 | a walk in the graph, reversed, is a walk in the reverse graph |
| DataFlow.EquivalenceSymmetric | src/helix/Analysis/Flow/DataFlowGraph.cs:71-76 | when equality edges come in pairs, a is equivalent to b exactly when b is equivalent to a |
| DataFlow.EqualityPathReversed | src/helix/Analysis/Flow/DataFlowGraph.cs:29-30 | when equality edges come in pairs, a reversed equality walk is an equality walk |
| DataFlow.MemberTargets | src/helix/Analysis/Flow/DataFlowGraph.cs:83-86 | the lifetimes picked from one edge set are exactly the ends of its member edges whose path ends in the member's name |
| DataFlow.DataFlowGraph.constructor | src/helix/Analysis/Flow/DataFlowGraph.cs:16-22 | a new graph has no edges in either direction, and the reverse graph mirrors it |
| DataFlow.DataFlowGraph.AddAssignment | src/helix/Analysis/Flow/DataFlowGraph.cs:24-34 | None or a self-assignment changes nothing; otherwise an equality edge each way is added to both graphs, keeping the mirror and the equality pairing |
| DataFlow.DataFlowGraph.AddStored | src/helix/Analysis/Flow/DataFlowGraph.cs:36-43 | None or a self-store changes nothing; otherwise a dependence edge is added forward and its mirror backward, after which the first lifetime outlives the second |
| DataFlow.DataFlowGraph.AddMember | src/helix/Analysis/Flow/DataFlowGraph.cs:45-52 | None or a self-member changes nothing; otherwise a member edge is added forward and its mirror backward |
| DataFlow.DataFlowGraph.GetOutlivedLifetimes | src/helix/Analysis/Flow/DataFlowGraph.cs:55-61 | exactly the lifetimes the start reaches along equality and dependence edges, each once |
| DataFlow.DataFlowGraph.GetPrecursorLifetimes | src/helix/Analysis/Flow/DataFlowGraph.cs:63-69 | exactly the lifetimes that reach the start along equality and dependence edges, each once, though the search runs in the reverse graph |
| DataFlow.DataFlowGraph.GetEquivalentLifetimes | src/helix/Analysis/Flow/DataFlowGraph.cs:71-76 | exactly the lifetimes the start reaches along equality edges, each once |
| DataFlow.DataFlowGraph.GetMemberLifetimes | src/helix/Analysis/Flow/DataFlowGraph.cs:78-90 | exactly the member-edge ends, named after the member, of lifetimes equivalent to the start |
| DataFlow.DataFlowGraph.DoesOutlive | src/helix/Analysis/Flow/DataFlowGraph.cs:92-94 | true exactly when the first lifetime reaches the second along equality and dependence edges |
| DataFlow.StoredChain | src/helix/Analysis/Flow/DataFlowGraph.cs:36-43 | after storing a into b and b into c, a outlives c |
| LifetimeGraphs.Append | src/helix/Analysis/Lifetimes/LifetimeGraph.cs:19-23 | adding to a lifetime's list creates it empty when missing and appends one element; every other list is unchanged |
| LifetimeGraphs.InTargets | src/helix/Analysis/Lifetimes/LifetimeGraph.cs:8-10 | whatever is in a lifetime's list is among the listed lifetimes |
| LifetimeGraphs.ReachSelf | src/helix/Analysis/Lifetimes/LifetimeGraph.cs:58 | a search reaches its start |
| LifetimeGraphs.ReachExtend | src/helix/Analysis/Lifetimes/LifetimeGraph.cs:71-76 | what follows a reachable lifetime in its list is reachable |
| LifetimeGraphs.WalkInside | src/helix/Analysis/Lifetimes/LifetimeGraph.cs:61-106 | a walk that starts inside a set closed under following the lists ends inside it, so the search misses nothing |
| LifetimeGraphs.ReachBound | src/helix/Analysis/Lifetimes/LifetimeGraph.cs:61-106 | everything reachable is the start or in some list, which bounds the search |
| LifetimeGraphs.BlockedReachesOnlyItself | src/helix/Analysis/Lifetimes/LifetimeGraph.cs:123-126 | the precursor search goes no further than a root |
| LifetimeGraphs.SearchStart | src/helix/Analysis/Lifetimes/LifetimeGraph.cs:57-58 | the search state holds at the start: nothing visited, the start on the stack |
| LifetimeGraphs.SearchSkip | src/helix/Analysis/Lifetimes/LifetimeGraph.cs:64-66 | popping a visited lifetime keeps the search state |
| LifetimeGraphs.SearchVisit | src/helix/Analysis/Lifetimes/LifetimeGraph.cs:67-76 | visiting a new lifetime and pushing what follows it keeps the search state, and the lifetime is reachable |
| LifetimeGraphs.SearchDone | src/helix/Analysis/Lifetimes/LifetimeGraph.cs:61-106 | when the stack is empty, what was visited is exactly what is reachable from the start |
| LifetimeGraphs.FrontierStart | src/helix/Analysis/Lifetimes/LifetimeGraph.cs:57-58 | the loop invariant holds before the first pass |
| LifetimeGraphs.FrontierSkip | src/helix/Analysis/Lifetimes/LifetimeGraph.cs:64-66 | skipping a visited lifetime keeps the loop invariant |
| LifetimeGraphs.FrontierVisit | src/helix/Analysis/Lifetimes/LifetimeGraph.cs:67-76 | visiting a new lifetime keeps the loop invariant and leaves fewer lifetimes unvisited, so the loop terminates |
| LifetimeGraphs.PushedInside | src/helix/Analysis/Lifetimes/LifetimeGraph.cs:71-76 | whatever is pushed stays among the start and the listed lifetimes |
| LifetimeGraphs.PrecursorsMembership | src/helix/Analysis/Lifetimes/LifetimeGraph.cs:111-135 | the precursors are exactly the lifetimes reachable through parents without expanding one where the search stops, and that stop: a root, a lifetime with no parent entry, or a lifetime that is its own parent |
| LifetimeGraphs.PrecursorsOfRoot | src/helix/Analysis/Lifetimes/LifetimeGraph.cs:123-126 | the precursors of a root are the root alone |
| LifetimeGraphs.ContributionsMembership | src/helix/Analysis/Lifetimes/LifetimeGraph.cs:79-104 | a lifetime is contributed by a dependency list exactly when one of its dependencies contributes it |
| LifetimeGraphs.ContributionBound | src/helix/Analysis/Lifetimes/LifetimeGraph.cs:80-102 | a contributed lifetime is the dependency itself or one of its precursors, and is a root unless it is the dependency |
| LifetimeGraphs.PrecursorLoopNeverEnds | src/helix/Analysis/Lifetimes/LifetimeGraph.cs:116-132 | as written, the precursor loop never finishes on a root lifetime r that is its own parent, whatever the number of passes |
| LifetimeGraphs.PrecursorsOfSelfParent | src/helix/Analysis/Lifetimes/LifetimeGraph.cs:89-102 | once the search stops at a lifetime that is its own parent, the precursors of a lone AddRoot(r) are {r}, so a dependency on r contributes r to the derived lifetimes, as the comment on the fallback branch intends |
| LifetimeGraphs.LifetimeGraph.constructor | src/helix/Analysis/Lifetimes/LifetimeGraph.cs:7-10 | a new graph has no lifetimes and empty dictionaries, and the parent and child lists mirror each other |
| LifetimeGraphs.LifetimeGraph.AddPrecursor | src/helix/Analysis/Lifetimes/LifetimeGraph.cs:16-24 | both lifetimes join the known ones and the parent is appended to the child's parent list; the other dictionaries are unchanged |
| LifetimeGraphs.LifetimeGraph.AddDerived | src/helix/Analysis/Lifetimes/LifetimeGraph.cs:26-34 | both lifetimes join the known ones and the child is appended to the parent's child list; the other dictionaries are unchanged |
| LifetimeGraphs.LifetimeGraph.AddRoot | src/helix/Analysis/Lifetimes/LifetimeGraph.cs:36-39 | a root is appended to its own parent list and its own child list, keeping the lists mirrored |
| LifetimeGraphs.LifetimeGraph.AddAlias | src/helix/Analysis/Lifetimes/LifetimeGraph.cs:41-44 | the precursor is appended to the derived lifetime's parents and the derived lifetime to the precursor's children, keeping the lists mirrored |
| LifetimeGraphs.LifetimeGraph.AddDependency | src/helix/Analysis/Lifetimes/LifetimeGraph.cs:46-54 | both lifetimes join the known ones and the target is appended to the dependent's list; parents and children are unchanged |
| LifetimeGraphs.LifetimeGraph.GetPrecursorLifetimes | src/helix/Analysis/Lifetimes/LifetimeGraph.cs:111-135 | the result is exactly the precursors: each is a root, has no parent entry or is its own parent, and a root's precursors are itself alone |
| LifetimeGraphs.LifetimeGraph.GetDerivedLifetimes | src/helix/Analysis/Lifetimes/LifetimeGraph.cs:56-109 | the result is exactly what the dependencies of the lifetimes reachable through children contribute; with no dependencies it is empty |
| LifetimeGraphs.LifetimeGraph.DependencyContributions | src/helix/Analysis/Lifetimes/LifetimeGraph.cs:79-104 | the loop over one dependency list adds exactly that list's contributions |
| LifetimeGraphs.WithinGrow | src/helix/Analysis/Lifetimes/LifetimeGraph.cs:7 | the known-lifetimes set only grows, so everything listed stays known |
| LifetimeGraphs.WithinAppend | src/helix/Analysis/Lifetimes/LifetimeGraph.cs:17-23 | after adding both lifetimes to the known set, appending one to the other's list keeps every listed lifetime known |
| LifetimeGraphs.MirrorAppend | src/helix/Analysis/Lifetimes/LifetimeGraph.cs:41-44 | appending p to c's parents and c to p's children keeps "p is a parent of c iff c is a child of p" |
| ControlFlow.SetEdge | src/helix/Analysis/Flow/ControlFlowGraph.cs:92-93 | setting an edge's predicate gives that edge exactly that label and leaves every other pair of nodes as it was |
| ControlFlow.SuccessorInNodes | src/helix/Analysis/Flow/ControlFlowGraph.cs:53 | every successor of a node is a node of the graph |
| ControlFlow.LeadsSelf | src/helix/Analysis/Flow/ControlFlowGraph.cs:139 | a node leads to itself, so the helper visits its start |
| ControlFlow.LeadsPrepend | src/helix/Analysis/Flow/ControlFlowGraph.cs:149-153 | control reaching a child from a non-end node reaches whatever the child leads to |
| ControlFlow.RunInside | src/helix/Analysis/Flow/ControlFlowGraph.cs:138-160 | a run that starts in a set closed under the out-edges of its non-end nodes stays in it |
| ControlFlow.Pow | src/helix/Analysis/Flow/ControlFlowGraph.cs:182-211 | a power of a positive base is positive, which the weight of the search stack relies on |
| ControlFlow.StackWeightConcat | src/helix/Analysis/Flow/ControlFlowGraph.cs:183-207 | the weight of a concatenated stack is the sum of the parts' weights |
| ControlFlow.StackWeightUniform | src/helix/Analysis/Flow/ControlFlowGraph.cs:194-207 | a stack of paths of one length weighs that many times one path's weight |
| ControlFlow.WeightDrops | src/helix/Analysis/Flow/ControlFlowGraph.cs:194-207 | at most n paths one node longer weigh less than the path they extend |
| ControlFlow.WeightStep | src/helix/Analysis/Flow/ControlFlowGraph.cs:186-207 | popping a path and pushing its extensions lowers the stack's weight, so GetAllPaths terminates |
| ControlFlow.SimpleBound | src/helix/Analysis/Flow/ControlFlowGraph.cs:195-197 | a path that repeats no node is no longer than the set of nodes it lies in |
| ControlFlow.ExtendPath | src/helix/Analysis/Flow/ControlFlowGraph.cs:194-207 | children already on the path are skipped; the end node completes a path that is recorded; every other child extends the path, which is pushed |
| ControlFlow.ControlFlowGraph.constructor | src/helix/Analysis/Flow/ControlFlowGraph.cs:57-67 | a new graph has no edges, no reverse edges and no continuations |
| ControlFlow.ControlFlowGraph.AddEdge | src/helix/Analysis/Flow/ControlFlowGraph.cs:69-94 | an edge to or from the none node is ignored; otherwise the edge gets the predicate in both directions, keeping the reverse graph a mirror |
| ControlFlow.ControlFlowGraph.AddContinuation | src/helix/Analysis/Flow/ControlFlowGraph.cs:96-106 | a none sibling is ignored; a statement that already has a continuation fails as Dictionary.Add does; otherwise exactly that one entry is added |
| ControlFlow.ControlFlowGraph.GetContinuation | src/helix/Analysis/Flow/ControlFlowGraph.cs:108-112 | the continuation recorded for the statement, or the none node when there is none |
| ControlFlow.ControlFlowGraph.AlwaysReturns | src/helix/Analysis/Flow/ControlFlowGraph.cs:132-136 | true exactly when no run of control from the scope reaches a node, other than the end node, that has no out-edges |
| ControlFlow.ControlFlowGraph.AlwaysReturnsHelper | src/helix/Analysis/Flow/ControlFlowGraph.cs:138-160 | the helper visits exactly what the node leads to, closes the visited set under out-edges, and answers true exactly when none of the newly visited nodes is a dead end |
| ControlFlow.ControlFlowGraph.GetAllPaths | src/helix/Analysis/Flow/ControlFlowGraph.cs:182-211 | the result is exactly the paths of at least one edge from start to end that follow edges and repeat no node |
| ControlFlow.SearchStarts | src/helix/Analysis/Flow/ControlFlowGraph.cs:183-184 | the search invariant holds for the stack holding just [start] and an empty result |
| ControlFlow.SplitLastPath | src/helix/Analysis/Flow/ControlFlowGraph.cs:187 | the popped path is the last element of the stack |
| ControlFlow.StackedPathBound | src/helix/Analysis/Flow/ControlFlowGraph.cs:186-188 | every stacked path has between one node and as many nodes as the graph has |
| ControlFlow.HelperExtend | src/helix/Analysis/Flow/ControlFlowGraph.cs:149-153 | the helper's result after one more child is the conjunction so far with the child's answer, and its visited set keeps its properties |
| ControlFlow.ChildrenBound | src/helix/Analysis/Flow/ControlFlowGraph.cs:194 | a node has no more children than the graph has nodes |
| ControlFlow.ProperSubsetSize | src/helix/Analysis/Flow/ControlFlowGraph.cs:139 | adding a node not yet visited makes the visited set strictly larger |
| ControlFlow.SubsetSize | src/helix/Analysis/Flow/ControlFlowGraph.cs:139 | a subset is no larger than its superset |
| ControlFlow.PopKeeps | src/helix/Analysis/Flow/ControlFlowGraph.cs:190-192 | popping a path already found keeps the search invariant |
| ControlFlow.ExtendKeeps | src/helix/Analysis/Flow/ControlFlowGraph.cs:194-207 | replacing a stacked path by its extensions keeps the search invariant: every path still to be found has a prefix on the stack |
| ControlFlow.ExtendCovers | src/helix/Analysis/Flow/ControlFlowGraph.cs:194-207 | a path still to be found that runs through the popped path runs through one of its extensions |
| ControlFlow.OneStepLonger | src/helix/Analysis/Flow/ControlFlowGraph.cs:199-205 | a stacked path extended by a child not on it is a stacked path |
| ControlFlow.MirrorSet | src/helix/Analysis/Flow/ControlFlowGraph.cs:92-93 | setting an edge and its turned-round copy keeps the two graphs mirrored, label for label |
| CaptureFlow.InAllKinds | Attempt19/FlowGraph.cs:75-78 | the one-argument searches allow every capture kind |
| CaptureFlow.EdgeEquals | Attempt19/FlowGraph.cs:27-47 | an edge equals an object exactly when the object is an edge with the same kind, captured and dependent variables; null is unequal |
| CaptureFlow.EdgeHash | Attempt19/FlowGraph.cs:21-25 | the hash is a 32-bit value, whatever the field hashes |
| CaptureFlow.EdgeHashSum | Attempt19/FlowGraph.cs:21-25 | the hash is the captured hash plus 7 times the dependent hash plus 11 times the kind hash, wrapped to 32 bits, so equal edges hash equally |
| CaptureFlow.AddEdge | Attempt19/FlowGraph.cs:158-162 | the new graph holds the added edge and every old edge, and nothing else |
| CaptureFlow.AddEdgeAlgebra | Attempt19/FlowGraph.cs:158-162 | adding an edge twice is adding it once, and two additions commute |
| CaptureFlow.ReachSelf | Attempt19/FlowGraph.cs:84 | a search reaches its start |
| CaptureFlow.ReachExtend | Attempt19/FlowGraph.cs:89-99 | following one allowed edge from a reachable variable gives a reachable variable |
| CaptureFlow.FollowedIsSuccessor | Attempt19/FlowGraph.cs:89-99 | the far end of every followed edge is a successor |
| CaptureFlow.WalkStays | Attempt19/FlowGraph.cs:86-101 | a walk that starts in a set closed under successors stays in it |
| CaptureFlow.AddEdgeReaches | Attempt19/FlowGraph.cs:158-162 | adding an edge keeps everything reachable, and makes its captured variable reachable from its dependent one and back in the other direction |
| CaptureFlow.DistinctConcat | Attempt19/FlowGraph.cs:94-100 | joining two repetition-free lists with nothing in common gives a repetition-free list |
| CaptureFlow.MatchingMembers | Attempt19/FlowGraph.cs:89-92 | the filters keep exactly the edges that leave the variable with an allowed kind, and keep no edge twice |
| CaptureFlow.MatchingCons | Attempt19/FlowGraph.cs:89-92 | the filter over an enumeration written out is taken edge by edge |
| CaptureFlow.Yields | Attempt19/FlowGraph.cs:94-95 | one capture is yielded per edge, holding its kind and its far end |
| CaptureFlow.YieldsAppend | Attempt19/FlowGraph.cs:94-95 | the captures of two edge lists in turn are the captures of the joined list |
| CaptureFlow.Targets | Attempt19/FlowGraph.cs:97-98 | the far end of each edge, in order |
| CaptureFlow.Variables | Attempt19/FlowGraph.cs:95 | the variable of each capture, in order |
| CaptureFlow.AllReachableConcat | Attempt19/FlowGraph.cs:86-101 | a joined list is all reachable exactly when both parts are |
| CaptureFlow.AsWrittenYieldsReachable | Attempt19/FlowGraph.cs:80-102 | whatever the loop as written yields is reachable from the start |
| CaptureFlow.StepReachable | Attempt19/FlowGraph.cs:89-99 | the far ends of the edges a reachable variable expands into are reachable |
| CaptureFlow.SelfCaptureNeverEnds | Attempt19/FlowGraph.cs:80-102 | as written, a variable that captures itself keeps the search running for ever, whatever the number of passes |
| CaptureFlow.DiamondYieldsTwice | Attempt19/FlowGraph.cs:80-102 | as written, in a diamond d-b-a, d-c-a with a capturing z, variable a is expanded twice and the capture of z is yielded twice |
| CaptureFlow.AsWrittenStep | Attempt19/FlowGraph.cs:86-101 | one dequeue of the loop as written yields the head's edges and enqueues all their far ends |
| CaptureFlow.DiamondMatching | Attempt19/FlowGraph.cs:89-92 | the edges each variable of the diamond captures, in enumeration order |
| CaptureFlow.SearchStart | Attempt19/FlowGraph.cs:81-84 | the corrected search's invariant holds with the start visited and enqueued |
| CaptureFlow.SearchExpand | Attempt19/FlowGraph.cs:86-100 | expanding the head of the queue keeps the invariant and either shrinks the queue or visits something new |
| CaptureFlow.SearchDone | Attempt19/FlowGraph.cs:86-101 | when the queue is empty the yielded edges are exactly the allowed edges leaving reachable variables |
| CaptureFlow.ExpandEdges | Attempt19/FlowGraph.cs:94-100 | every edge is yielded in order, and each far end not yet visited is enqueued once and marked visited |
| CaptureFlow.FindAll | Attempt19/FlowGraph.cs:80-102 | the corrected search yields every allowed edge leaving a reachable variable, each exactly once, and only reachable variables |
| CaptureFlow.FindAllCapturedVariables | Attempt19/FlowGraph.cs:75-78 | over the corrected search (see Findings): every variable yielded is transitively captured by the dependent, and every edge below a reachable dependent yields its capture |
| CaptureFlow.FindAllDependentVariables | Attempt19/FlowGraph.cs:104-107 | over the corrected search (see Findings): every variable yielded transitively depends on the captured one, and every edge above a reachable captured variable yields its dependent |
| CaptureFlow.DirectionsMirror | Attempt19/FlowGraph.cs:75-131 | y is transitively captured by x exactly when x transitively depends on y |
| CaptureFlow.Reverse | Attempt19/FlowGraph.cs:75-131 | the reversed walk holds the walk's variables back to front |
| CaptureFlow.ReversedWalk | Attempt19/FlowGraph.cs:75-131 | a walk one way, reversed, is a walk the other way |
| Int32.Wrap | src/helix.common/Collections/ValueList.cs:16 | the 32-bit value congruent to x modulo 2^32, equal to x when x is already in range: what unchecked `int` arithmetic keeps |
| Int32.HashFoldClosedForm | src/helix.common/Collections/ValueList.cs:16 | the fold `x + 13 * hash(y)` with every step wrapping equals the wrapped `seed + 13 * (h1 + ... + hn)` |
| Int32.HashFoldSwap | src/helix.common/Collections/ValueList.cs:16 | the fold over `a + b` equals the fold over `b + a` |
| ValueLists.Hashes | src/helix.common/Collections/ValueList.cs:16 | the element hashes, one per element, in order |
| ValueLists.Create | src/helix.common/Collections/ValueList.cs:13-21 | a constructed list holds the given values and the hash computed from them |
| ValueLists.Get | src/helix.common/Collections/ValueList.cs:25 | the indexer succeeds exactly for an index in [0, Count) and returns that element |
| ValueLists.Equals | src/helix.common/Collections/ValueList.cs:40-47 | lists that compare equal hold the same elements |
| ValueLists.EqualsObject | src/helix.common/Collections/ValueList.cs:29-38 | Equals(object) is false for a non-sequence, element-wise equality for another sequence, and Equals(ValueList) for a ValueList |
| ValueLists.Add | src/helix.common/Collections/ValueList.cs:53 | Count grows by one, the old elements are kept and the value is last; the hash is recomputed |
| ValueLists.AddRange | src/helix.common/Collections/ValueList.cs:55-57 | the old elements followed by the new ones, with the hash recomputed |
| ValueLists.Clear | src/helix.common/Collections/ValueList.cs:59 | Clear yields a valid list with Count 0 |
| ValueLists.Insert | src/helix.common/Collections/ValueList.cs:65-67 | throws exactly for an index outside [0, Count]; otherwise the value sits at the index between the unchanged prefix and suffix |
| ValueLists.InsertRange | src/helix.common/Collections/ValueList.cs:69-71 | throws exactly for an index outside [0, Count]; otherwise the values sit at the index between the unchanged prefix and suffix |
| ValueLists.SetItem | src/helix.common/Collections/ValueList.cs:101-103 | throws exactly for an index outside [0, Count); otherwise only that element changes |
| ValueLists.RemoveAt | src/helix.common/Collections/ValueList.cs:85-87 | throws exactly for an index outside [0, Count); otherwise that element is gone and the others keep their order |
| ValueLists.FirstIndex | src/helix.common/Collections/ValueList.cs:77-79 | the position of the first element equal to the value, or none exactly when the value is absent |
| ValueLists.Remove | src/helix.common/Collections/ValueList.cs:77-79 | with the given comparer: when no element compares equal to the value the elements are unchanged; otherwise exactly the first element that compares equal is removed and the rest keep their order |
| ValueLists.RemoveDefault | src/helix.common/Collections/ValueList.cs:77-79 | with the default comparer the removed element is the first occurrence of the value itself |
| ValueLists.Filter | src/helix.common/Collections/ValueList.cs:81-83 | every element kept satisfies the predicate, and each value the predicate keeps occurs as often as in the input, any other value not at all |
| ValueLists.FilterAppend | src/helix.common/Collections/ValueList.cs:81-83 | filtering a concatenation is the concatenation of the filtered parts, so the kept elements stay in order |
| ValueLists.FilterOne | src/helix.common/Collections/ValueList.cs:81-83 | a single element is kept exactly when the predicate holds of it |
| ValueLists.RemoveAll | src/helix.common/Collections/ValueList.cs:81-83 | the result is the in-order filter of the non-matching elements: no matching element survives and every non-matching value keeps its number of occurrences |
| ValueLists.RemoveAllAppend | src/helix.common/Collections/ValueList.cs:81-83 | RemoveAll of a concatenation is the concatenation of RemoveAll of the parts |
| ValueLists.HashOfPermutation | src/helix.common/Collections/ValueList.cs:15-16 | reordering the elements leaves the hash unchanged |
| ValueLists.EqualsIsElementwise | src/helix.common/Collections/ValueList.cs:40-47 | for constructed lists Equals is element-wise equality; unequal hashes imply inequality and equal lists have equal hashes |
| ValueLists.SwappedCollide | src/helix.common/Collections/ValueList.cs:15-16 | two distinct elements in either order give equal hashes but unequal lists |
| ValueLists.AddRoundTrip | src/helix.common/Collections/ValueList.cs:53-87 | RemoveAt(Add(l, v), Count) == l, and Insert at Count is Add |
| ValueLists.InsertRoundTrip | src/helix.common/Collections/ValueList.cs:65-87 | RemoveAt undoes Insert at the same index |
| ValueLists.SetItemRoundTrip | src/helix.common/Collections/ValueList.cs:101-103 | setting an element to its own value gives the same list, and reading a set index gives the new value |
| ValueLists.ClearIsEmpty | src/helix.common/Collections/ValueList.cs:59 | Clear of any list equals the empty list |
| IndexedData.Dictionary.constructor | Attempt14/Data.cs:20-24 | a dictionary value wraps a new dictionary object holding the given entries |
| IndexedData.IsTruthy | Attempt14/Data.cs:121-185 | a symbol is always truthy, an integer exactly when non-zero, a dictionary exactly when it has entries |
| IndexedData.Equals | Attempt14/Data.cs:131-198 | two values are Equal exactly when they are the same symbol, the same integer, or wrap the same dictionary object |
| IndexedData.SameEntriesNotEqual | Attempt14/Data.cs:192-198 | two distinct dictionary objects are never Equal, whatever their entries |
| IndexedData.IndexKeys | Attempt14/Data.cs:39-41 | the keys of an encoded list of length n are exactly the integers 1 to n |
| IndexedData.ListEntries | Attempt14/Data.cs:39-41 | the encoding of a list has keys 1 to its length, key i holding element i-1, and as many entries as the list has elements |
| IndexedData.ListEntriesStep | Attempt14/Data.cs:39-41 | one loop step of the encoding binds key i+1 to element i of the prefix it extends |
| IndexedData.EntriesAsList | Attempt14/Data.cs:91-100 | reading a dictionary as a list succeeds exactly when every key 1 to Count is present, giving Count values with value i-1 read at key i |
| IndexedData.FromList | Attempt14/Data.cs:32-45 | builds a new dictionary whose entries are the encoding of the list, the empty list giving an empty dictionary |
| IndexedData.AsList | Attempt14/Data.cs:87-100 | a non-dictionary fails with an invalid cast; a dictionary reads as EntriesAsList, failing on the first missing key |
| IndexedData.IsList | Attempt14/Data.cs:102-114 | true exactly for a dictionary that holds every key from 1 to its Count |
| IndexedData.IndexKeysSize | Attempt14/Data.cs:107-111 | there are exactly n index keys from 1 to n |
| IndexedData.IsListExact | Attempt14/Data.cs:102-114 | a dictionary passes IsList exactly when its keys are 1 to Count and nothing else |
| IndexedData.SubsetOfSameSize | Attempt14/Data.cs:107-111 | a subset of a finite set with the same size is the whole set, which is why IsList leaves no room for extra keys |
| IndexedData.ListRoundTrip | Attempt14/Data.cs:32-100 | the encoding of any list passes IsList and AsList reads the list back |
| IndexedData.EntriesRoundTrip | Attempt14/Data.cs:91-114 | a dictionary that passes IsList is exactly the encoding of what AsList reads from it |
| IndexedData.ListTruthy | Attempt14/Data.cs:32-45 | an encoded list is truthy exactly when the list is non-empty |
| IndexedData.Clone | Attempt14/Data.cs:143-212 | succeeds exactly when the nesting fits the bound (ClonesWithin); symbols and integers are returned as they are; a dictionary is copied into a new object that is not Equal to it, with the same truthiness, every atomic entry copied and no atomic key the original lacks; a dictionary of atoms is copied entry for entry |
| IndexedData.CloneEntries | Attempt14/Data.cs:204-212 | the copy loop succeeds exactly when every key and value clones within the bound, and then builds a fresh dictionary, empty exactly when the original is, holding every atomic entry and no atomic key the original lacks |
| IndexedData.CopiedStep | Attempt14/Data.cs:207-209 | storing one more cloned pair keeps what the copy loop has built |
| IndexedData.CopiedDone | Attempt14/Data.cs:204-212 | when every key is done, the copy holds every atomic entry of the original, and all of them when the original holds only atoms |
| LinkedData.Node | Attempt12/Data/Data.cs:41-44 | a list node has exactly the two keys `value` and `next`, holding the element and the link |
| LinkedData.From | Attempt12/Data/Data.cs:26-46 | the empty list gives a new empty dictionary, one element gives a single node ending in 0, and longer lists a chain of distinct new nodes holding the elements in order |
| LinkedData.LinkedCons | Attempt12/Data/Data.cs:37-44 | putting a new node in front of a chain, as each fold step does, gives a chain one element longer |
| LinkedData.AsList | Attempt12/Data/Data.cs:82-98 | the loop that follows truthy `next` links collecting values returns what the specification ListOf reads, with the casts and missing keys as errors |
| LinkedData.PrependStep | Attempt12/Data/Data.cs:90-93 | collecting one more value before the rest is the same as extending the prefix by it |
| LinkedData.ListFromLinked | Attempt12/Data/Data.cs:82-98 | reading a chain from its node i gives exactly the elements from i on |
| LinkedData.RoundTrip | Attempt12/Data/Data.cs:26-98 | AsList of what From builds is the original list, the empty list included |
| LinkedData.SelfLoopUnbounded | Attempt12/Data/Data.cs:90-93 | a node whose `next` is itself is read forever: every bound on the walk runs out |
| LinkedData.SelfLoopFrom | Attempt12/Data/Data.cs:90-93 | the walk from a self-linked node never ends, whatever the bound |
| LinkedData.IsListNeverTrue | Attempt12/Data/Data.cs:100-108 | as written, IsList never answers true, since every finite chain ends in the integer 0 |
| LinkedData.IsListNodeReads | Attempt12/Data/Data.cs:82-108 | the corrected test on a node holds exactly when the walk from it succeeds and diverges exactly when the walk does |
| LinkedData.IsListMatchesAsList | Attempt12/Data/Data.cs:82-108 | the corrected IsList holds exactly when AsList succeeds and diverges exactly when AsList does |
| LinkedData.FromIsList | Attempt12/Data/Data.cs:26-108 | what From builds passes the corrected IsList and fails the as-written one |
| LinkedData.TerminatorFalsy | Attempt12/Data/Data.cs:86-97 | in a chain the link after the last node is the falsy 0, every other link is a truthy node, which is where AsList stops |
| CWriters.CountLast | src/helix/Generation/CWriter.cs:76-88 | the number of named paths ending in a segment never exceeds the number of named paths |
| CWriters.CWriter.constructor | src/helix/Generation/CWriter.cs:29-35 | a new writer hands out `$A` first and has named no path |
| CWriters.CWriter.GetTempName | src/helix/Generation/CWriter.cs:50-62 | the k-th temporary since the last reset is `$` plus letter k mod 26, with `_` and k div 26 appended once the letters have wrapped; path names are untouched |
| CWriters.CWriter.ResetTempNames | src/helix/Generation/CWriter.cs:64-67 | after a reset the next temporary is `$A` again; path names are untouched |
| CWriters.CWriter.GetPathName | src/helix/Generation/CWriter.cs:69-92 | an empty path fails; a one-segment path is its segment and changes nothing; a longer path keeps the name it was given, or is named after its last segment, suffixed by how many earlier paths ended in it, and that segment's counter grows by one |
| CWriters.TempPosition | src/helix/Generation/CWriter.cs:50-62 | temporary number k carries letter k mod 26 and number k div 26 |
| CWriters.NameNext | src/helix/Generation/CWriter.cs:87-88 | naming one more path raises exactly its last segment's count by one |
| CWriters.NamingFirstUse | src/helix/Generation/CWriter.cs:76-78 | starting a segment's counter at zero keeps the naming invariant |
| CWriters.NamingStep | src/helix/Generation/CWriter.cs:80-89 | naming a new path after its segment's counter and bumping the counter keeps the naming invariant |
| CWriters.SuffixedInjective | src/helix/Generation/CWriter.cs:81-85 | the suffixed name of a segment determines the count it was built from |
| CWriters.CountLastGrows | src/helix/Generation/CWriter.cs:88 | the count of a segment is higher after each later path that ends in it |
| CWriters.MemoisedNamesDistinct | src/helix/Generation/CWriter.cs:69-92 | two different longer paths that end in the same segment get different names |
| CWriters.TempNameInjective | src/helix/Generation/CWriter.cs:50-62 | no temporary name is handed out twice between resets |
| CWriters.TempNameSequence | src/helix/Generation/CWriter.cs:50-62 | the temporaries run `$A` to `$Z`, then `$A_1`, `$B_1`, ..., `$A_2` |
| CWriters.OneSegmentShares | src/helix/Generation/CWriter.cs:70-72 | a one-segment path is named by its segment alone, so a longer path whose last segment is `x`, named first, gets the same name `x` |
| CWriters.SuffixShares | src/helix/Generation/CWriter.cs:80-85 | suffixes are unique per segment only: the second path ending in `a` and a path ending in `a_1` are both named `a_1` |
| CStatementWriters.CStatementWriter.constructor | src/helix/Generation/CStatementWriter.cs:66-80 | a nested writer starts from its parent's region cache, a top-level writer from an empty one; the lifetime cache starts empty |
| CStatementWriters.CStatementWriter.WriteStatement | src/helix/Generation/CStatementWriter.cs:82-86 | the statement is appended to the body |
| CStatementWriters.CStatementWriter.WriteEmptyLine | src/helix/Generation/CStatementWriter.cs:88-94 | a blank line is appended only to a non-empty body that does not already end in one |
| CStatementWriters.CStatementWriter.GetLifetime | src/helix/Generation/CStatementWriter.cs:96-108 | the parent's cached expression wins; otherwise the lifetime's code is generated once and cached; the answer for every lifetime stays what it was |
| CStatementWriters.CStatementWriter.CalculateSmallestLifetime | src/helix/Generation/CStatementWriter.cs:110-150 | no lifetimes give `_return_region`; one distinct lifetime gives its expression; a cached set gives its temporary and writes nothing; otherwise a fresh temporary holds the `_region_min` fold of every lifetime and is cached under the set |
| CStatementWriters.CStatementWriter.WriteRegion | src/helix/Generation/CStatementWriter.cs:124-149 | the uncached case writes a blank line, a comment, the declaration of a fresh temporary and one fold per further value, and caches the temporary under the set |
| CStatementWriters.CStatementWriter.GetLifetimes | src/helix/Generation/CStatementWriter.cs:124-126 | each lifetime of the list is resolved in order, duplicates included, without changing any lifetime's answer |
| CStatementWriters.CStatementWriter.WriteFolds | src/helix/Generation/CStatementWriter.cs:139-144 | one `_region_min` assignment into the temporary per value after the first |
| CStatementWriters.OnlyElement | src/helix/Generation/CStatementWriter.cs:117-118 | a list whose distinct lifetimes are one lifetime repeats its first element, which `First()` returns |
| CStatementWriters.EmptyLineKeepsSpacing | src/helix/Generation/CStatementWriter.cs:88-94 | WriteEmptyLine never starts a body with a blank line nor doubles one, and writing two is writing one |
| CStatementWriters.StatementKeepsSpacing | src/helix/Generation/CStatementWriter.cs:82-86 | writing a statement that is not a blank line keeps the body well spaced |
| CStatementWriters.FoldsHaveNoBlank | src/helix/Generation/CStatementWriter.cs:139-144 | the folds are assignments only |
| CStatementWriters.RegionKeepsSpacing | src/helix/Generation/CStatementWriter.cs:135-146 | a region calculation keeps the body free of leading and doubled blank lines |
| CStatementWriters.CountsAppend | src/helix/Generation/CStatementWriter.cs:135-146 | declarations and folds of a temporary are counted part by part |
| CStatementWriters.FoldsCount | src/helix/Generation/CStatementWriter.cs:139-144 | the folds over n items assign the temporary n times and declare it nowhere |
| CStatementWriters.RegionCodeCounts | src/helix/Generation/CStatementWriter.cs:128-144 | for n values the region code declares the temporary once and folds into it n - 1 times |
| CStatementWriters.RepeatedSetReuses | src/helix/Generation/CStatementWriter.cs:111-122 | asking again for the same lifetimes in another order and with duplicates returns the same temporary and writes nothing more |
| CExpressions.IntTextRoundTrip | src/helix/Generation/Syntax/Expressions.cs:8-10 | a printed integer is non-empty decimal text, with a minus sign only when negative, that reads back as the integer |
| CExpressions.IntLiteralInjective | src/helix/Generation/Syntax/Expressions.cs:8-10 | an integer literal always prints, ends in `U`, and different integers print differently |
| CExpressions.DereferenceStrips | src/helix/Generation/Syntax/Expressions.cs:99-111 | dereferencing an expression printed as `(&x)` prints `x` |
| CExpressions.AddressOfStrips | src/helix/Generation/Syntax/Expressions.cs:119-131 | taking the address of an expression printed as `(*x)` prints `x` |
| CExpressions.DereferenceOfAddressOf | src/helix/Generation/Syntax/Expressions.cs:99-131 | `*&e` prints as `e` whenever `e` does not itself print with a `(*` prefix |
| CExpressions.AddressOfDereference | src/helix/Generation/Syntax/Expressions.cs:99-131 | `&*e` prints as `e` whenever `e` does not itself print with a `(&` prefix |
| CExpressions.IndexedAddressMisprints | src/helix/Generation/Syntax/Expressions.cs:99-111 | as written, dereferencing `(&a)[0U]` cuts the text instead and prints the unbalanced `a)[0U` |
| CExpressions.IndexedAddressStructural | src/helix/Generation/Syntax/Expressions.cs:99-111 | with the cancellation decided on the tree, the same expression prints `(*(&a)[0U])` |
| CExpressions.InvokeArgumentsFirst | src/helix/Generation/Syntax/Expressions.cs:138-142 | an invocation prints its arguments before its target, so when both throw the argument's exception is raised: the address of a variable named `(*` fails its substring before a target with no operation is reached |
| CExpressions.StructuralCancels | src/helix/Generation/Syntax/Expressions.cs:99-131 | with the cancellation decided on the tree, `*&e` and `&*e` always print exactly as `e` |
| CExpressions.PrintersAgree | src/helix/Generation/Syntax/Expressions.cs:4-177 | on trees without a dereference or an address-of, the corrected printer prints exactly what the code as written prints |
| CExpressions.PrintersAgreeAll | src/helix/Generation/Syntax/Expressions.cs:39-48 | the same for argument lists |
| CExpressions.OperatorTextInjective | src/helix/Generation/Syntax/Expressions.cs:59-75 | different operations have different C spellings, each one or two characters, the second always `=` |
| CExpressions.BinaryTextDeterminesOperation | src/helix/Generation/Syntax/Expressions.cs:77 | a binary expression prints parenthesised, and its text determines its operation |
| CExpressions.BinaryPrints | src/helix/Generation/Syntax/Expressions.cs:58-78 | a binary expression without an operation throws; with one it prints `(left op right)` |
| CExpressions.MemberAccessArrow | src/helix/Generation/Syntax/Expressions.cs:162-166 | a member access prints parenthesised, with `->` exactly when it is a pointer access |
| CExpressions.RegionAllocSingle | src/helix/Generation/Syntax/Expressions.cs:19-22 | allocating one value prints no multiplier |
| CExpressions.Between | src/helix/Generation/Syntax/Expressions.cs:19-26 | the text between a common prefix and suffix is determined, which lets the amount be read back |
| CExpressions.RegionAllocAmount | src/helix/Generation/Syntax/Expressions.cs:19-26 | different amounts print different allocations |
| DeadCode.Lower | src/helix.middle/Optimizations/HmmDeadCodeEliminator.cs:29 | lower-cases each character in place, keeping the length, so that the boolean parse accepts any letter case |
| DeadCode.LiteralExamples | src/helix.middle/Optimizations/HmmDeadCodeEliminator.cs:28-33 | signed integers, booleans in any case and `void` count as literals and are never recorded as read; a bare sign or a name is not a literal |
| DeadCode.DeadCodeEliminator.constructor | src/helix.middle/Optimizations/HmmDeadCodeEliminator.cs:11-14 | a new eliminator starts with the read, read-since-assignment and assigned sets all empty |
| DeadCode.DeadCodeEliminator.Restore | src/helix.middle/Optimizations/HmmDeadCodeEliminator.cs:12-14 | puts the three sets back to a given state, as the branch scan of the corrected scanner needs |
| DeadCode.DeadCodeEliminator.UseVariable | src/helix.middle/Optimizations/HmmDeadCodeEliminator.cs:28-33 | a non-literal name is added to both the read set and the read-since-assignment set; a literal changes nothing |
| DeadCode.DeadCodeEliminator.UseEach | src/helix.middle/Optimizations/HmmDeadCodeEliminator.cs:21-23 | reading every operand in turn leaves the state the specification's UseAll gives |
| DeadCode.DeadCodeEliminator.VisitExpression | src/helix.middle/Optimizations/HmmDeadCodeEliminator.cs:16-26 | the new state and the kept statement are those of the backward scan Scan: dropped when its result is never read, otherwise kept with its operands read |
| DeadCode.DeadCodeEliminator.VisitAssignment | src/helix.middle/Optimizations/HmmDeadCodeEliminator.cs:39-50 | agrees with Scan: an assignment overwritten later before any read is dropped, otherwise kept, both sides read and the variable marked assigned and not yet read |
| DeadCode.DeadCodeEliminator.VisitInterrupt | src/helix.middle/Optimizations/HmmDeadCodeEliminator.cs:56-58 | agrees with Scan: break and continue are always kept |
| DeadCode.DeadCodeEliminator.VisitFunctionDeclaration | src/helix.middle/Optimizations/HmmDeadCodeEliminator.cs:62-69 | agrees with Scan: the declaration is kept with its body scanned last to first |
| DeadCode.DeadCodeEliminator.VisitIfExpression | src/helix.middle/Optimizations/HmmDeadCodeEliminator.cs:73-94 | agrees with Scan, as written or corrected: the empty-if drop, the condition read and the result operands read when the result is used, with both bodies scanned |
| DeadCode.DeadCodeEliminator.VisitLoop | src/helix.middle/Optimizations/HmmDeadCodeEliminator.cs:102-107 | agrees with Scan: the loop is kept with its body scanned once last to first |
| DeadCode.DeadCodeEliminator.VisitReturn | src/helix.middle/Optimizations/HmmDeadCodeEliminator.cs:113-117 | agrees with Scan: a return is kept and reads its operand |
| DeadCode.DeadCodeEliminator.Visit | src/helix.middle/Optimizations/HmmDeadCodeEliminator.cs:35-127 | dispatching over every statement kind agrees with Scan, including declarations, which are kept unchanged |
| DeadCode.DeadCodeEliminator.VisitBody | src/helix.middle/Optimizations/HmmDeadCodeEliminator.cs:67 | the backward loop over a body agrees with ScanBody: statements are visited last to first and the survivors keep their order |
| DeadCodeProperties.UseAllAdds | src/helix.middle/Optimizations/HmmDeadCodeEliminator.cs:21-23 | reading a list of operands adds exactly its non-literal names to both read sets and leaves the assigned set alone |
| DeadCodeProperties.ExpressionRule | src/helix.middle/Optimizations/HmmDeadCodeEliminator.cs:16-26 | an expression is dropped exactly when its result is not read later; a dropped one leaves the state unchanged, and a kept one is returned as it is with its operands read |
| DeadCodeProperties.AssignmentRule | src/helix.middle/Optimizations/HmmDeadCodeEliminator.cs:39-50 | an assignment is dropped exactly when the variable is assigned later with no read in between; a kept one leaves the variable assigned and unread since, and its value read |
| DeadCodeProperties.AlwaysKept | src/helix.middle/Optimizations/HmmDeadCodeEliminator.cs:56-58 | break, continue, declarations and returns are never removed, and a return's operand is read |
| DeadCodeProperties.AsWrittenIfDropped | src/helix.middle/Optimizations/HmmDeadCodeEliminator.cs:74-76 | as written, an if is removed exactly when both of its bodies are empty, whatever reads its result |
| DeadCodeProperties.CorrectedIfDropped | src/helix.middle/Optimizations/HmmDeadCodeEliminator.cs:74-76 | corrected, an if is removed exactly when both bodies are empty and its result is not read later |
| DeadCodeProperties.ScanGrows | src/helix.middle/Optimizations/HmmDeadCodeEliminator.cs:12 | visiting a statement never removes a name from the read set |
| DeadCodeProperties.ScanBodyGrows | src/helix.middle/Optimizations/HmmDeadCodeEliminator.cs:67 | visiting a whole body never removes a name from the read set |
| DeadCodeProperties.ScanClean | src/helix.middle/Optimizations/HmmDeadCodeEliminator.cs:28-33 | no literal is ever recorded as read, after any statement |
| DeadCodeProperties.ScanBodyClean | src/helix.middle/Optimizations/HmmDeadCodeEliminator.cs:28-33 | no literal is ever recorded as read, after any body |
| DeadCodeProperties.ScanPrunes | src/helix.middle/Optimizations/HmmDeadCodeEliminator.cs:62-107 | a kept statement is the original with statements deleted from its nested bodies and nothing else changed |
| DeadCodeProperties.ScanBodyPrunes | src/helix.middle/Optimizations/HmmDeadCodeEliminator.cs:67 | the kept body is a subsequence of the original, each survivor pruned from the statement it came from: elimination only deletes |
| DeadCodeProperties.ScanBodyCons | src/helix.middle/Optimizations/HmmDeadCodeEliminator.cs:67 | scanning a statement followed by a rest scans the rest first and then the statement in the state the rest leaves |
| DeadCodeProperties.ScanBodyOne | src/helix.middle/Optimizations/HmmDeadCodeEliminator.cs:67 | a one-statement body is scanned as that statement alone |
| DeadCodeProperties.ScanBodyAppend | src/helix.middle/Optimizations/HmmDeadCodeEliminator.cs:67 | scanning a concatenation scans the back part first and continues into the front part from its state |
| DeadCodeProperties.IfSymmetric | src/helix.middle/Optimizations/HmmDeadCodeEliminator.cs:85-93 | corrected, swapping the two branches of an if swaps what survives of them: the branches are scanned from the same state |
| DeadCodeProperties.BranchesIndependent | src/helix.middle/Optimizations/HmmDeadCodeEliminator.cs:91-92 | corrected, what survives of the negative body does not depend on the affirmative body |
| DeadCodeProperties.ConditionStaysUsed | src/helix.middle/Optimizations/HmmDeadCodeEliminator.cs:78 | corrected, the condition of a kept if counts as read before the if, so an assignment to it just before survives |
| DeadCodeProperties.LoopKeepsLastAssignment | src/helix.middle/Optimizations/HmmDeadCodeEliminator.cs:102-107 | corrected, the last assignment of a loop body is never removed, since the next iteration may read it |
| DeadCodeProperties.EmptyIfLosesResult | src/helix.middle/Optimizations/HmmDeadCodeEliminator.cs:74-76 | as written, `r = if c then a else n; return r` with empty branches loses the if and keeps only the return |
| DeadCodeProperties.EmptyIfKept | src/helix.middle/Optimizations/HmmDeadCodeEliminator.cs:74-76 | corrected, the same program is kept whole |
| DeadCodeProperties.AsWrittenIfStep | src/helix.middle/Optimizations/HmmDeadCodeEliminator.cs:78-92 | as written, an if whose two branches each assign the same variable keeps only one of the two assignments |
| DeadCodeProperties.CorrectedIfStep | src/helix.middle/Optimizations/HmmDeadCodeEliminator.cs:78-92 | corrected, both branch assignments survive and the condition counts as read before the if |
| DeadCodeProperties.BranchesShareState | src/helix.middle/Optimizations/HmmDeadCodeEliminator.cs:91-92 | as written, `if c { x = one } else { x = two }; return x` loses the else-branch assignment |
| DeadCodeProperties.BothBranchesKept | src/helix.middle/Optimizations/HmmDeadCodeEliminator.cs:91-92 | corrected, the same program is kept whole |
| DeadCodeProperties.ConditionReadTooEarly | src/helix.middle/Optimizations/HmmDeadCodeEliminator.cs:78 | as written, `c = t; if c { c = f } else { c = g }; return c` loses `c = t`, which the if reads |
| DeadCodeProperties.ConditionReadKept | src/helix.middle/Optimizations/HmmDeadCodeEliminator.cs:78 | corrected, the same program is kept whole |
| DeadCodeProperties.LoopCarriedDropped | src/helix.middle/Optimizations/HmmDeadCodeEliminator.cs:102-107 | as written, `loop { if x { break }; x = y }; x = z` loses `x = y`, which the next iteration reads |
| DeadCodeProperties.LoopCarriedKept | src/helix.middle/Optimizations/HmmDeadCodeEliminator.cs:102-107 | corrected, the same program is kept whole |
| StateMachines.Insert | src/helix/Features/FlowControl/StateMachineSyntax.cs:24-25 | inserting into an increasing sequence keeps it strictly increasing and adds exactly the new key |
| StateMachines.SortDistinct | src/helix/Features/FlowControl/StateMachineSyntax.cs:22-25 | the result is strictly increasing and holds exactly the elements of the input, each once |
| StateMachines.HeadAndTail | src/helix/Features/FlowControl/StateMachineSyntax.cs:25 | the head of a sorted key list is its least key and the tail holds all the others |
| StateMachines.IncreasingUnique | src/helix/Features/FlowControl/StateMachineSyntax.cs:24-25 | two strictly increasing sequences with the same elements are equal: the sorted distinct order is unique |
| StateMachines.Keys | src/helix/Features/FlowControl/StateMachineSyntax.cs:20-27 | the key order is strictly increasing and holds exactly the keys of the conditional and constant dictionaries |
| StateMachines.KeysIgnoreEnumeration | src/helix/Features/FlowControl/StateMachineSyntax.cs:20-27 | the key order does not depend on the order in which either dictionary enumerates its keys |
| StateMachines.Bad | src/helix/Features/FlowControl/StateMachineSyntax.cs:202-205 | the removable states are constant states, namely those whose expression is pure |
| StateMachines.Steps | src/helix/Features/FlowControl/StateMachineSyntax.cs:232-238 | when the walk from a state leaves the pure states, this many jumps reach a state that is kept |
| StateMachines.WalkStep | src/helix/Features/FlowControl/StateMachineSyntax.cs:233-235 | one more jump moves from a pure state to its next state and leaves a kept state where it is |
| StateMachines.WalkStable | src/helix/Features/FlowControl/StateMachineSyntax.cs:233-237 | once the walk reaches a kept state it stays there |
| StateMachines.ExitUnique | src/helix/Features/FlowControl/StateMachineSyntax.cs:232-238 | every point where one walk leaves the pure states is the same state, so the redirect target is well defined |
| StateMachines.WalkAgrees | src/helix/Features/FlowControl/StateMachineSyntax.cs:208-215 | the walk reads only the pure states, so rewriting the kept states first does not change where it leads |
| StateMachines.WalkTrapped | src/helix/Features/FlowControl/StateMachineSyntax.cs:233-235 | a walk that enters a set of pure states jumping only among themselves never leaves it |
| StateMachines.PureCycleNeverSettles | src/helix/Features/FlowControl/StateMachineSyntax.cs:232-238 | on a cycle of pure constant states the search for a kept state never ends, so a search started inside one never returns |
| StateMachines.UnreachableCycleSettles | src/helix/Features/FlowControl/StateMachineSyntax.cs:200-238 | two pure states jumping to each other, with no kept state or condition jumping into them, are a pure cycle on which every search OptimizeStates starts still ends, and both are removed |
| StateMachines.TargetNotBad | src/helix/Features/FlowControl/StateMachineSyntax.cs:232-238 | a jump whose search ends is redirected to a state that is not removed, and a jump to a kept state is left alone |
| StateMachines.TargetSkips | src/helix/Features/FlowControl/StateMachineSyntax.cs:233-235 | redirecting through a pure state lands where that state's own jump is redirected |
| StateMachines.OptimizedConstantsShape | src/helix/Features/FlowControl/StateMachineSyntax.cs:200-230 | after optimizing, the constant states are exactly the impure ones with their expressions unchanged, and none jumps to a removed state |
| StateMachines.OptimizedConditionsShape | src/helix/Features/FlowControl/StateMachineSyntax.cs:217-225 | the conditional states keep their keys, conditions and ids, so their number is unchanged, and neither branch jumps to a removed state |
| StateMachines.OptimizeIdempotent | src/helix/Features/FlowControl/StateMachineSyntax.cs:200-238 | optimizing an already optimized machine changes nothing: the result has no pure state, so every search on it ends at once |
| StateMachines.FlowRewriter.constructor | src/helix/Features/FlowControl/StateMachineSyntax.cs:187-198 | a new rewriter has no states, break, continue and return states -1 and next state 0 |
| StateMachines.FlowRewriter.FindGoodState | src/helix/Features/FlowControl/StateMachineSyntax.cs:232-238 | whenever the search from the start ends (the start is kept, or its chain of pure states leaves them), the loop following the live constant states returns the start's redirect target |
| StateMachines.FlowRewriter.RedirectConstants | src/helix/Features/FlowControl/StateMachineSyntax.cs:208-215 | the first pass redirects every kept constant state to its optimized form, keeps the keys and leaves the pure states untouched |
| StateMachines.FlowRewriter.RedirectConditions | src/helix/Features/FlowControl/StateMachineSyntax.cs:217-225 | the second pass rewrites every conditional state to its optimized form |
| StateMachines.FlowRewriter.RemoveStates | src/helix/Features/FlowControl/StateMachineSyntax.cs:227-230 | the third pass removes exactly the pure constant states |
| StateMachines.FlowRewriter.OptimizeStates | src/helix/Features/FlowControl/StateMachineSyntax.cs:200-230 | whenever every search the passes start ends (the next state of each kept constant state and both jumps of each condition settle), the constant and conditional states become the optimized maps, and the break, continue, return and next states are unchanged |
| BoolAtoms.Shift | src/trophyc/Experimental/IBoolAtom.cs:23 | exact: the plain sum; otherwise C# unchecked 32-bit addition, always in range and equal to the sum when the sum fits |
| BoolAtoms.MakeComparison | src/trophyc/Experimental/IBoolAtom.cs:21-34 | the constructor always yields a strict comparison unless both sides are named, leaves strict comparisons alone and keeps in-range constants in range |
| BoolAtoms.Negate | src/trophyc/Experimental/IBoolAtom.cs:36-44 | a negated atom is in constructor form, and negating a union test flips only its polarity |
| BoolAtoms.TryUnionWith | src/trophyc/Experimental/IBoolAtom.cs:46-77 | a union gives either one merged atom or the two atoms unchanged, in order |
| BoolAtoms.MakeExact | src/trophyc/Experimental/IBoolAtom.cs:21-34 | with exact arithmetic the stored comparison holds exactly when the requested one does |
| BoolAtoms.MakeWrapped | src/trophyc/Experimental/IBoolAtom.cs:21-34 | in 32-bit arithmetic the meaning is kept whenever the moved constant is not int.MaxValue on the right or int.MinValue on the left |
| BoolAtoms.MakeAtMaxWraps | src/trophyc/Experimental/IBoolAtom.cs:22-25 | `x <= int.MaxValue`, true of every int, is stored as `x < int.MinValue`, true of none |
| BoolAtoms.MakeAtMinWraps | src/trophyc/Experimental/IBoolAtom.cs:26-29 | `int.MinValue <= x`, true of every int, is stored as `int.MaxValue < x`, true of none |
| BoolAtoms.NegateExact | src/trophyc/Experimental/IBoolAtom.cs:36-44 | with exact arithmetic a negated comparison or union test holds exactly when the atom does not |
| BoolAtoms.NegateAtMaxWraps | src/trophyc/Experimental/IBoolAtom.cs:36-44 | in 32-bit arithmetic `int.MaxValue < x`, false for every int, negates to `x < int.MinValue`, also false for every int |
| BoolAtoms.ShiftBack | src/trophyc/Experimental/IBoolAtom.cs:21-29 | moving an in-range constant down and then up, or up and then down, restores it |
| BoolAtoms.NegateInvolutive | src/trophyc/Experimental/IBoolAtom.cs:36-44 | negating twice gives back any in-range constructor-form atom with at least one named side |
| BoolAtoms.UnionIsDoubleNegation | src/trophyc/Experimental/IBoolAtom.cs:173-175 | a union test negates to the opposite polarity, negating twice restores it, and the negation holds exactly when the test does not |
| BoolAtoms.UnionSound | src/trophyc/Experimental/IBoolAtom.cs:46-77 | the atoms a union returns all hold exactly when both input atoms hold, and they are in constructor form |
| BoolAtoms.NegateConstantsDrift | src/trophyc/Experimental/IBoolAtom.cs:36-44 | `3 < 5` negates to `5 < 4` and back to `4 < 6`: equivalent to the original but not equal when neither side is named |
| BoolAtoms.UnionUpperBounds | src/trophyc/Experimental/IBoolAtom.cs:56-64 | `a < c1` and `a < c2` merge into `a < min(c1, c2)` |
| BoolAtoms.UnionLowerBounds | src/trophyc/Experimental/IBoolAtom.cs:66-74 | `c1 < b` and `c2 < b` merge into `max(c1, c2) < b` whenever the first arguments do not already match |
| BoolAtoms.EqualComparisonsBothKept | src/trophyc/Experimental/IBoolAtom.cs:52-54 | two comparisons with equal arguments are both kept unless they are the same object, since comparisons have no value equality |
| BoolAtoms.UnionIsMerges | src/trophyc/Experimental/IBoolAtom.cs:177-183 | union tests merge only with an equal union test, and a comparison never merges with a union test |
| CPlayground.Sub | src/c_playground/program.c:401 | unsigned 64-bit subtraction: `a - b` when b <= a, wraps by 2^64 when a < b (so `0U - 1U` is the largest value) |
| CPlayground.Index | src/c_playground/program.c:326-332 | an element read succeeds exactly when the index is below the slice size, and then yields that cell of the slice |
| CPlayground.SliceOf | src/c_playground/program.c:85-92 | a slice [lo, hi) succeeds exactly when lo <= hi <= size; the result starts lo cells further, has size hi - lo and holds exactly cells lo..hi-1 |
| CPlayground.EmittedSliceChecks | src/c_playground/program.c:103-110 | the check emitted for `[lo, size)` and the one for `[0, hi)` reject exactly the slices SliceOf rejects |
| CPlayground.SliceOfSlice | src/c_playground/program.c:346-356 | slicing an already sliced array equals one slice of the original at the summed offsets |
| CPlayground.SwapStep | src/c_playground/program.c:467-490 | swapping the least remaining cell into position i extends the sorted prefix by one and keeps the cells' multiset |
| CPlayground.IndexOfSmallest | src/c_playground/program.c:414-465 | the inner loop returns the first position in [i, n) holding the least value of that range |
| CPlayground.Swap | src/c_playground/program.c:472-490 | the three closing statements exchange cells i and smallest_index and change nothing else |
| CPlayground.PlaceSmallest | src/c_playground/program.c:405-493 | one outer pass keeps the array a permutation, touches nothing outside the slice and extends the sorted prefix from i to i+1 cells |
| CPlayground.SelectionSort | src/c_playground/program.c:392-497 | panics exactly on an empty slice (the wrapped bound `size - 1U` lets the first access check fire) and then leaves memory unchanged; otherwise the slice ends sorted and a permutation of its input, cells outside untouched |
| CPlayground.BinarySearch | src/c_playground/program.c:305-390 | the result is NotFound (`0U - 1U`) or an index whose cell holds to_find; on a sorted slice it is NotFound exactly when to_find is absent (corrected upper half, see Findings) |
| CPlayground.SearchStepAsWritten | src/c_playground/program.c:317-387 | one pass as written: Exhausted iff the window is empty, a found index is in the window and holds to_find, a narrowed window lies inside the old one |
| CPlayground.SearchAsWrittenStalls | src/c_playground/program.c:360-380 | the pass as written leaves the window unchanged exactly when it holds one cell smaller than to_find |
| CPlayground.SearchAsWrittenStallsOnSingleton | src/c_playground/program.c:360-380 | searching [5] for 7 as written maps the window [0, 1) to itself, so the loop never ends |
| CPlayground.SearchAsWrittenKeepsTarget | src/c_playground/program.c:336-382 | on a sorted window that holds to_find, a pass as written either finds it or narrows to a window still holding it |
| CPlayground.MergeSeqPermutes | src/c_playground/program.c:213-301 | the merge of two runs holds exactly the cells of both (multiset union) |
| CPlayground.MergeSeqSorted | src/c_playground/program.c:213-301 | the merge of two sorted runs is sorted |
| CPlayground.CopyLoop | src/c_playground/program.c:169-199 | the copy loop succeeds exactly when 1 <= mid <= 10 and mid <= size (mid == 0 wraps the bound `mid - 1U`), and the scratch array keeps its 10 cells |
| CPlayground.CopyLoopCopies | src/c_playground/program.c:169-199 | after the copy loop the scratch holds cells 0..mid-1 of the slice, followed by its old cells from mid on |
| CPlayground.TailLoop | src/c_playground/program.c:276-301 | the last loop succeeds exactly when the scratch cells left fit in the slice after cell k |
| CPlayground.MergeRun | src/c_playground/program.c:156-303 | `$merge` panics whenever mid is 0, above the scratch size 10 or above the slice size |
| CPlayground.Merge | src/c_playground/program.c:156-303 | panics exactly when MergeRun fails, and otherwise leaves memory equal to MergeRun's result |
| CPlayground.MergeBack | src/c_playground/program.c:201-301 | the merging loop and the last loop panic exactly when MergeTail fails, and otherwise leave the array equal to its result |
| CPlayground.TailSplices | src/c_playground/program.c:276-301 | the last loop writes the remaining scratch cells in order from cell k |
| CPlayground.MergeFinishes | src/c_playground/program.c:213-301 | from any point of the corrected merging loop, the rest of `$merge` writes the merge of what is left of both runs from cell k on |
| CPlayground.MergeCorrect | src/c_playground/program.c:156-303 | the corrected merge succeeds exactly when 1 <= mid <= 10 and mid <= size, and then writes the sorted merge of cells [0, mid) and [mid, size) over the slice |
| CPlayground.TakeLeftRun | src/c_playground/program.c:213-244 | a run of scratch cells all smaller than the right cell at j is written back in order from cell k, cell j staying the same at each comparison |
| CPlayground.ZeroCascade | src/c_playground/program.c:213-274 | as written, once a scratch zero meets a zero just before cell k, the zero is copied rightwards until a write falls outside the slice and `$merge` panics |
| CPlayground.MergeAsWrittenZeroAtCut | src/c_playground/program.c:156-303 | as written, on runs whose left cells are all below a positive first right cell, `$merge` panics when mid < 9 and at mid == 9 returns the slice with its cut cell zeroed |
| CPlayground.CopiedRun | src/c_playground/program.c:169-199 | after the copy loop, scratch cells 0..mid-1 hold the left run and the cells from mid on are still zero |
| CPlayground.CutZeroed | src/c_playground/program.c:213-244 | writing back the left run and one scratch zero changes only the cut cell, to zero |
| CPlayground.JoinHalves | src/c_playground/program.c:118-121 | sorting the left half in place and then the right half leaves both halves sorted permutations of their old cells and the outside untouched |
| CPlayground.MergeSortStep | src/c_playground/program.c:118-153 | splicing the merge of two sorted halves back over the slice gives a sorted permutation of what the slice held before the halves were sorted, the outside untouched |
| CPlayground.MergedPermutes | src/c_playground/program.c:118-153 | the merge of the sorted halves holds exactly the cells the slice held before they were sorted |
| CPlayground.InsertSorted | src/c_playground/program.c:392-497 | inserting into a sorted run keeps it sorted, so the reference sort (insertion sort, a permutation by its own contract) is sorted |
| CPlayground.SortSeqSorted | src/c_playground/program.c:392-497 | the reference sort of any cells is sorted |
| CPlayground.SortedUnique | src/c_playground/program.c:392-497 | two sorted runs with the same cells are equal, so sorting has one possible outcome |
| CPlayground.SortRangeSorts | src/c_playground/program.c:392-497 | replacing a range by its reference sort sorts it in place: a sorted permutation with the outside untouched |
| CPlayground.InPlaceUnique | src/c_playground/program.c:392-497 | any in-place sort of a range (sorted, a permutation, outside untouched) leaves exactly what SortRange leaves |
| CPlayground.SortedRangeStays | src/c_playground/program.c:392-497 | sorting a range that is already sorted leaves memory unchanged |
| CPlayground.SortRunCorrect | src/c_playground/program.c:65-154 | with the corrected `$merge`, the sort of a slice succeeds exactly when it has 1 to 21 cells, and then leaves it sorted in place (SortRange), the outside untouched |
| CPlayground.MergeJoinsHalves | src/c_playground/program.c:118-153 | for 16 to 21 cells, the corrected merge of the two halves, each sorted in turn, is the whole slice sorted in place |
| CPlayground.MergedHalvesSort | src/c_playground/program.c:118-153 | the merge of the two halves, each sorted in turn, equals the sorted slice |
| CPlayground.SortBothHalves | src/c_playground/program.c:118-121 | sorting the left half and then the right half leaves both halves sorted permutations, the rest untouched |
| CPlayground.MergedSortRange | src/c_playground/program.c:153 | merging two halves that are sorted permutations of the old halves gives the old slice sorted in place |
| CPlayground.SortRunAsWritten | src/c_playground/program.c:65-303 | as written, the sort agrees with the corrected one up to 15 cells and at 20 and 21 cells, panics beyond 21, and from 16 to 21 cells is the as-written `$merge` of the sorted halves |
| CPlayground.SortRunMerged | src/c_playground/program.c:81-153 | from 16 to 21 cells, the sort is `$merge` at `size / 2U` of the slice whose halves were sorted in turn |
| CPlayground.HalvesSmall | src/c_playground/program.c:118-121 | when both halves have 1 to 15 cells, the two recursive calls sort them in turn and never panic |
| CPlayground.SortRunLong | src/c_playground/program.c:65-303 | as written, every slice longer than 21 cells panics: a half panics or the left half overflows the scratch array |
| CPlayground.SortAsWrittenOnSorted | src/c_playground/program.c:65-303 | as written, an already sorted slice of 16 to 19 cells that rises at its cut panics for 16 and 17 cells and has its cut cell zeroed for 18 and 19, while the corrected sort leaves it unchanged |
| CPlayground.SortedBelowCut | src/c_playground/program.c:201-244 | in a sorted slice that rises at the cut, every left cell is below the cut cell |
| CPlayground.SortedSortStays | src/c_playground/program.c:65-154 | the corrected sort leaves an already sorted slice of 1 to 21 cells unchanged |
| CPlayground.SortRunRange | src/c_playground/program.c:65-154 | the corrected sort of 1 to 21 cells succeeds with SortRange's result |
| CPlayground.SortedHalvesMerge | src/c_playground/program.c:81-153 | as written, sorting an already sorted slice of 16 to 21 cells is the as-written `$merge` of the slice itself at `size / 2U` |
| CPlayground.HalvesStay | src/c_playground/program.c:118-121 | sorting each half of an already sorted slice changes nothing |
| CPlayground.SortedPartStays | src/c_playground/program.c:118-121 | sorting part of an already sorted range changes nothing |
| CPlayground.SortAsWrittenPanicsOn16 | src/c_playground/program.c:65-303 | as written, sorting the sorted slice [1, …, 16] panics with an index out of bounds; the corrected sort returns it unchanged |
| CPlayground.SortAsWrittenZeroesOn18 | src/c_playground/program.c:65-303 | as written, sorting the sorted slice [1, …, 18] succeeds with its 10 replaced by 0; the corrected sort returns it unchanged |
| CPlayground.SortRunSmall | src/c_playground/program.c:70-72 | up to 15 cells the sort is the selection sort: an empty slice panics, any other is sorted in place |
| CPlayground.SortRunLarge | src/c_playground/program.c:81-153 | beyond 15 cells the sort panics when a recursive call does, and otherwise is `$merge` at `size / 2U` of what the two calls left |
| CPlayground.HalvesRunSplit | src/c_playground/program.c:118-121 | the two recursive calls panic when the left one does, and otherwise are the right call on what the left one left |
| CPlayground.SelectionSortRun | src/c_playground/program.c:70-72 | what the selection sort promises (panic exactly on an empty slice, otherwise sorted in place) is the sort's outcome up to 15 cells |
| CPlayground.HalvesOutcome | src/c_playground/program.c:118-121 | the panics and results of the two recursive calls, each as the sort says, are the outcome of both halves |
| CPlayground.SortPart | src/c_playground/program.c:83-120 | one recursive call on the part `[lo, hi)` panics exactly when the sort of that part does, and otherwise leaves memory as the sort of that part says, cells outside it included |
| CPlayground.SortHalves | src/c_playground/program.c:81-121 | the two recursive calls on `[0, mid)` and `[mid, size)` panic exactly when the sort of the halves does, and otherwise leave memory as it says |
| CPlayground.MergeSort | src/c_playground/program.c:65-154 | the sequential branch of `$parallel_mergesort_helper`, with `$merge` as written or corrected, panics exactly when the sort does and otherwise leaves memory as it says; SortRunCorrect and SortRunAsWritten give that outcome |
| Decimal.NatToString | src/helix/Generation/CWriter.cs:57 | the printed number is a non-empty string of decimal digits with no leading zero |
| Decimal.DecimalValueOfNatToString | src/helix/Generation/CWriter.cs:57 | reading the printed digits back gives the number |
| Decimal.NatToStringInjective | src/helix/Generation/CWriter.cs:84 | distinct numbers print as distinct strings, so numbered suffixes never collide with each other |
| ImmutableMap.Add | src/helix/TypeChecking/TypeFrame.cs:128 | adding succeeds exactly when the key is absent or already bound to the same value, and then binds it; any other value for the key is a duplicate-key error |
| Int32.WrapCongruent | src/helix.common/Collections/ValueList.cs:16 | values that agree modulo 2^32 wrap to the same `int` |
| TrophyNames.Split | trophyc-new/Parser.cs:44-53 | splitting gives at least one part, no part holds the separator, and exactly one part when the text has no separator |
| TrophyNames.Join | trophyc-new/Parser.cs:57-61 | joining one part gives that part, and joining separator-free parts gives a text with no separator exactly when there is at most one part |
| CPlayground.MergeSeq | src/c_playground/program.c:213-301 | the reference merge of two sequences has as many elements as both together |
| CPlayground.MergeTail | src/c_playground/program.c:213-301 | the merging loop followed by the copy of what is left of the scratch array keeps the memory size when it does not panic |

## Left out

- The region runtime (`region_create`, `region_alloc`, `region_panic`, `region_async`) is declared in `trophy.h`, which is not part of this model: a panic is an outcome returned to the caller, an allocation is an array of the requested size.
- `trophy_int` is taken to be an unsigned 64-bit integer, since the emitted code compares `x < 0U` and uses `0U - 1U` as "not found"; `trophy.h`, which defines it, is not part of this model.
- The `setjmp` recovery, the `region_async` thread spawn of the parallel merge sort and its lambda (src/c_playground/program.c:44-63 and 123-150) are concurrency and non-local control flow.
- CPlayground.MergeSort: models the sequential branch only, where the `tasks` parameter has no effect.
- Lexer: the character classes (`char.IsLetter`, `char.IsDigit`, `char.IsWhiteSpace`) are the ASCII ones; the .NET classes also accept other Unicode letters, digits and spaces.
- AnalysisScope.IdentifierPath.Hash: the string hash code of .NET is a parameter, so only the fold around it is modelled.
- ValueLists.Hashes: the elements' own hash codes are a parameter.
- ValueLists: `IndexOf`, `LastIndexOf`, `Replace` and `RemoveRange(items, comparer)` are not modelled; `RemoveRange(int, int)` calls itself with the same arguments (src/helix.common/Collections/ValueList.cs:93-95) and never returns.
- TypeFrames: the break and continue frames are a set of frame values, so two frames with equal contents are one element; the C# code's `ImmutableHashSet<TypeFrame>` compares frames by reference, since TypeFrame does not override Equals, and keeps both.
- TypeFrames: nominal types, signatures and Helix types are type parameters; `GetSupertype` and `CanUnifyFrom` are passed in as functions.
- AliasRoots.IsUnknown: a member of the unknown location is taken to be unknown, and a named variable known; the location classes that define `IsUnknown` are not part of this model, and AliasStore.cs only calls it.
- AliasingTrackers.WeakUpdate: a failed assertion is reported as one error without the location that failed, since the order in which the C# code visits the targets is a hash-set order.
- AliasingTrackers: the state an exception leaves behind is not stated, since the exception ends the analysis.
- LifetimeGraphs.LifetimeGraph.GetPrecursorLifetimes: the corrected search marks every popped lifetime visited and also stops at a lifetime that is its own parent; the C# loop does neither and never ends on such a lifetime (see Findings).
- DataFlow.DataFlowGraph.GetMemberLifetimes: a lifetime whose path is empty is treated as not matching, where the C# code's `Segments.Last()` would throw.
- ControlFlow: `GetPredicates`, `GetPathPredicate` and `FindReachableNodes` are not modelled: they build syntax predicates whose types are not part of this model; edges carry an opaque label instead.
- CaptureFlow, StateMachines, AliasingTrackers: the enumeration order of a hash set or dictionary is a parameter, a sequence listing each key once.
- CWriters: `ConvertType` and `GenerateArrayType`, which also write `pathNames`, and the header and declaration builders are not modelled.
- CWriters and TypeFrames: the name counters are unbounded; the C# code's 32-bit counters would wrap after 2^31 names.
- CStatementWriters: C syntax is represented by its printed text; the syntax trees' own `GenerateCode` is a parameter.
- CStatementWriters: the `stats` list the writer shares with its caller is a field of the writer, so the aliasing between the two lists is not captured; only the direct parent's lifetime cache is consulted, as in the C# code.
- CStatementWriters: `VariableKinds`, `ShadowedLifetimeSources`, the comment and impure-expression mixins and the declaration helpers are not modelled.
- CExpressions: the integer literal holds an unbounded integer; the C# code's is 32-bit.
- CExpressions: the C# printers throw on a missing (null) child; the model's trees always have their children, so that error path is not modelled.
- DeadCode: the literal test accepts a sign and decimal digits within the 32-bit range and `true`/`false` in any letter case; the surrounding white space that .NET's parsers also accept is not.
- DeadCode: one eliminator is shared by all function declarations of a program, as in the C# code, so uses in one function are seen by the next; the corrected scanner keeps this.
- DeadCode: an expression whose result is carried around a loop is still judged by one pass over the body, as in the C# code.
- StateMachines.FlowRewriter.OptimizeStates: requires that every search for a good state it starts ends (StateMachines.KeptSettle and StateMachines.ConditionsSettle); when a kept state or a condition jumps into a cycle of pure states, FindGoodState never returns (StateMachines.PureCycleNeverSettles) and the model says nothing. A pure cycle nothing jumps into is accepted (StateMachines.UnreachableCycleSettles).
- StateMachines: `StateMachineSyntax.CheckTypes` and `GenerateCode` are type checking and C emission over unseen syntax classes; only the key order they share is modelled.
- IndexedData: integers are unbounded; the C# code's are 64-bit.
- LinkedData: integers are unbounded; the `int` values of Attempt12 are 32-bit, but the list code does no arithmetic on them.
- IndexedData.Clone, IndexedData.CloneEntries: Clone follows nested dictionaries to a depth given by a fuel bound and answers None beyond it (exactly when ClonesWithin fails); the C# code recurses without bound and loops on a dictionary that contains itself. For an entry whose key or value is itself a dictionary, neither contract (nor that of CloneEntries, the loop over the entries) says which clone is stored under which key.
- LinkedData.AsList: the walk along `next` links takes a fuel bound and fails with Unbounded when it runs out; the C# code loops forever on a cyclic chain.
- LinkedData.IsList: the corrected test takes the same fuel bound.

## Findings

| source | as written | input that shows it | evidently intended | confidence | as-written member | corrected member |
|---|---|---|---|---|---|---|
| src/c_playground/program.c:360-380 | the upper half of the window starts at `mid`, so a one-cell window whose element is smaller than the key is never shrunk | searching `[5]` for 7 | the upper half starts at `mid + 1`, so every pass shrinks the window and the search ends | high, not executed | CPlayground.SearchAsWrittenStallsOnSingleton | CPlayground.BinarySearch |
| src/c_playground/program.c:215 | the merging and last loops run to the scratch array's size, 10, so the zeros of its unused cells are merged in | sorting the sorted slice `[1, …, 16]` panics, and sorting `[1, …, 18]` loses its 10, which becomes 0 | the loops run to `mid` and write the merge of the two runs, so every slice of 1 to 21 cells is sorted | high, not executed | CPlayground.SortAsWrittenPanicsOn16 | CPlayground.SortRunCorrect |
| src/helix/Analysis/Lifetimes/LifetimeGraph.cs:116-132 | only returned lifetimes are marked visited, so a parent cycle outside `roots` is pushed again forever | a lifetime added with AddRoot, which is its own parent, searched with empty `roots` (as GetDerivedLifetimes does after AddRoot(r) and AddDependency(t, r)) | every popped lifetime is marked visited, and the search also stops at a lifetime that is its own parent, so it ends and returns r, which GetDerivedLifetimes then keeps | high, not executed | LifetimeGraphs.PrecursorLoopNeverEnds | LifetimeGraphs.PrecursorsOfSelfParent |
| Attempt19/FlowGraph.cs:80-131 | `visited` is read but never added to, so a cycle is followed forever and a diamond yields a variable twice | a variable that captures itself; two paths to one variable | each variable is marked visited when queued, so each allowed edge leaving a reachable variable is yielded once | high, not executed | CaptureFlow.SelfCaptureNeverEnds | CaptureFlow.FindAll |
| src/helix/Generation/Syntax/Expressions.cs:99-131 | `&` and `*` cancel by stripping the printed prefix `(&` or `(*` and the last character, which also fires on a longer text that merely starts that way | dereferencing `(&a)[0U]`, the index of an address | cancel only when the operand is itself an address or a dereference | low, not executed | CExpressions.IndexedAddressMisprints | CExpressions.IndexedAddressStructural |
| src/helix.middle/Optimizations/HmmDeadCodeEliminator.cs:74-76 | an if with two empty bodies is removed even when its result is read later | `r = if c then a else n` with empty bodies, then `return r` | remove it only when its result is not read later | medium, not executed | DeadCodeProperties.EmptyIfLosesResult | DeadCodeProperties.EmptyIfKept |
| src/helix.middle/Optimizations/HmmDeadCodeEliminator.cs:78-92 | the condition is read before the bodies are scanned and the two bodies are scanned one after the other on one shared state | `if c { x = one } else { x = two }; return x`, and `c = t; if c { c = f } else { c = g }; return c` | both bodies are scanned from the state after the if and joined, and the condition is read before the if | medium, not executed | DeadCodeProperties.BranchesShareState | DeadCodeProperties.BothBranchesKept |
| src/helix.middle/Optimizations/HmmDeadCodeEliminator.cs:102-107 | a loop body is scanned once with the writes after the loop, so an assignment read by the next iteration is removed | `loop { if x { break }; x = y }; x = z` | an assignment inside a loop is kept when the next iteration may read it | medium, not executed | DeadCodeProperties.LoopCarriedDropped | DeadCodeProperties.LoopCarriedKept |
| src/trophyc/Experimental/IBoolAtom.cs:21-29 | `con + 1` and `con - 1` wrap in 32-bit arithmetic | `x <= int.MaxValue`, stored as `x < int.MinValue` | the stored comparison holds exactly when the requested one does | high, not executed | BoolAtoms.MakeAtMaxWraps | BoolAtoms.MakeExact |
| Attempt12/Data/Data.cs:100-108 | IsList asks `next` to be a list again, but every chain ends in the integer 0, so no list passes | the one-element list `{value: x, next: 0}` | a chain passes when it ends in a falsy `next`, exactly when AsList can read it | high, not executed | LinkedData.IsListNeverTrue | LinkedData.IsListMatchesAsList |
