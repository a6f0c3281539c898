# Verified model of the policy editor and its library

This project models the parts of the repository that give an SELinux policy its meaning and
proves what they keep:

- three containers: the access vector table (`Avtab.dfy`), the hash table (`Hashtab.dfy`) and the
  extensible bitmap (`Ebitmap.dfy`), with linked chains for the first two;
- the rule editors of the Rust front end, down to the table (`AddRule.dfy`, `XpermRule.dfy`,
  `RuleLists.dfy`), the statement parser (`Statement.dfy`), and printing and reloading rules
  (`Dump.dfy`, `Reload.dfy`);
- attribute expansion (`Expand.dfy`), type bounds (`Hierarchy.dfy`), neverallow rules
  (`Assertion.dfy`), optional blocks (`Linker.dfy`) and role attributes (`RoleAttributes.dfy`);
- conditionals: evaluation, normal forms, enabling of rules, printing (`CondExpr.dfy`,
  `CondNodes.dfy`, `CondNormalize.dfy`, `CondState.dfy`, `CondText.dfy`);
- category lists (`Categories.dfy`) and module packages (`ModulePackage.dfy`).

`AvRules.dfy` reads a table as masks and `Arithmetic.dfy` holds shared numbers. Code that changes
state in place is modelled by classes and methods with loops; each method is proved against a
specification function, and the lemmas are about these. `dafny verify dfyconfig.toml` checks
everything.

## Findings

Promises that the code does not keep, each with an input and the exact condition under which it
does:

- Equal conditional expressions. `x && !y` and `y && !x` compare as equal (`SwappedCompareEqual`),
  and equivalent expressions may compare as different. Comparison is equivalence exactly when the
  recorded booleans are the same in the same order (`ExactWhenAligned`).
- Type bounds. A conditional auditallow rule of the parent hides an excess of the child
  (`AuditRuleHidesExcess`). The check is sound exactly when no rule of another kind gives the parent
  what no allow rule of the same branch gives (`SoundWhenBacked`); then it is also complete, with
  conditionals or without (`CoveredExactly`).
- Neverallow rules. A rule that mixes `self` with other pairs is reported for equal pairs only
  (`MixedIsMissed`); the report, and the check of extended permissions, are exact for just the other
  rules (`ExactUnlessMixed`). An empty set of functions counts as common with a driver
  (`CheckIsSharing`).
- Complemented command lists. `~{ 0x8910 0x892A }` allows 0x8910 (`ComplementedPair`); a list
  excludes all it lists exactly when its last range covers the others (`ComplementedList`).
- Role attributes. A member on a cycle that avoids the attribute is scanned for ever
  (`AvoidedCycle`); one scan ends exactly without such a cycle (`EndsUnlessTrapped`), and so does the
  whole run in every order (`EndsInEveryOrder`).
- `ebitmap_not` above 2^32 - 64: the counter wraps around and the loop does not end
  (`CounterNeverReaches`).
- Module packages whose section offsets pass 2^32 are not read back, all others are
  (`ReadsBackWhenFits`).
- An undefined expression makes `cond_normalize_expr` return -1 with all recorded booleans left at
  the values of the first assignment, false (`Precompute`, `CondNormalizeExpr`). Dropping a final
  negation is right for single expressions, not when several values are left on the stack
  (`SwapSelectsTheSame`).
- Printed rules. A permission the class inherits under a name that the class has itself is read back
  as another bit; names lead back exactly when there is none such (`UnhiddenLeadsBack`).
- `ebitmap_read` accepts an image with a high bit of zero whatever its count says (`Read`).

## Model

| member | source | states |
|---|---|---|
| Hierarchy.BoundsCheckType | crates/policy/libsepol/src/hierarchy.c:413-431 | the bad list is exactly the child's excess over the parent; when the parent's conditional rules are backed by allow rules, nothing bad is found if and only if, in every state of the conditionals, whatever allow rules let the child do to a type they let the parent do to that type's declared bound, or to the type if it has none |
| Hierarchy.CoveredIsBounded | crates/policy/libsepol/src/hierarchy.c:281-346 | soundness: with nothing uncovered, the child's effective permissions stay within the parent's (or its bound's) for every choice of branches |
| Hierarchy.BoundedIsCovered | crates/policy/libsepol/src/hierarchy.c:247-320 | completeness: every uncovered permission shows in some choice of branches, which is built from the branches that lack it |
| Hierarchy.CoveredExactly | crates/policy/libsepol/src/hierarchy.c:413-431 | the two directions together |
| Hierarchy.BoundedIsWithin | crates/policy/libsepol/src/hierarchy.c:295-309 | bounded means: allow rule by allow rule, through attributes, with the declared bound of each target |
| Hierarchy.SoundWhenBacked | crates/policy/libsepol/src/hierarchy.c:126-143 | for the conditional rules of a parent: the check is sound in all policies with them if and only if no rule of another kind gives the parent what no allow rule of the same branch gives |
| Hierarchy.AuditRuleHidesExcess | crates/policy/libsepol/src/hierarchy.c:133-138 | a policy in which an auditallow rule of the parent hides an excess of the child |
| Hierarchy.AllowOnlyIsBacked | crates/policy/libsepol/src/hierarchy.c:126-143 | conditional lists of allow rules only meet that condition |
| Hierarchy.ExpandParentRules | crates/policy/libsepol/src/hierarchy.c:185-245 | the global table is what the parent has in every state: unconditional grants and, per conditional, the grants common to both branches |
| Hierarchy.InsertFalse | crates/policy/libsepol/src/hierarchy.c:56-95 | a false-branch rule goes into its table, and what the true table shares with it into the global table |
| Hierarchy.NotCovered | crates/policy/libsepol/src/hierarchy.c:247-260 | what neither the branch's table nor the global one has |
| Hierarchy.CheckRule | crates/policy/libsepol/src/hierarchy.c:281-320 | exactly the uncovered targets of one rule are added to the bad list |
| Hierarchy.CheckChildRules | crates/policy/libsepol/src/hierarchy.c:371-411 | the bad list over all lists is the excess, in whatever order the conditionals come |
| Hierarchy.AllExcessOrder | crates/policy/libsepol/src/hierarchy.c:394-407 | the order of the conditionals does not matter |
| Expand.ExpandAvtab | crates/policy/libsepol/src/expand.c:3349-3361 | an entry is there, once, exactly for the pairs of types some rule is about, an attribute standing for its bits plus one; it says what all rules about it say; it fails exactly when two type rules are about one pair |
| Expand.GatherMeaning | crates/policy/libsepol/src/expand.c:3221-3281 | an entry exists exactly for covered pairs, its mask is the OR of the covering rules' masks, and the AND for auditdeny |
| Expand.GatherOrder | crates/policy/libsepol/src/expand.c:3349-3361 | the order in which the table is walked does not matter |
| Expand.MembersStand | crates/policy/libsepol/src/expand.c:3310-3342 | the members of a type are itself, or, for an attribute, its bits plus one |
| Expand.ExpandNode | crates/policy/libsepol/src/expand.c:3289-3347 | one rule is merged into exactly the product of its source and target members |
| Expand.InsertEntry | crates/policy/libsepol/src/expand.c:3221-3281 | a new entry, or a merge into the existing one; a second type rule is the conflict error |
| Expand.FindEntry | crates/policy/libsepol/src/expand.c:3221-3243 | for an extended rule, the node of the same kind of set and driver among all that overlap |
| Linker.EnableAvrules | crates/policy/libsepol/src/link.c:2132-2213 | fails exactly when a block is empty or a mandatory block lies outside the greatest stable set; otherwise the first branch is enabled for a block in the set, the second for another one but the global block, and no other branch |
| Linker.Settle | crates/policy/libsepol/src/link.c:2158-2188 | the while-changed loop ends with the greatest stable set, in any block order |
| Linker.GreatestIsStable | crates/policy/libsepol/src/link.c:2158-2188 | the union of all stable sets is stable, so there is a greatest one |
| Linker.GreatestMembers | crates/policy/libsepol/src/avrule_block.c:155-190 | a first branch is in the greatest stable set exactly when, within that set, each role and user it requires has some declaration, each other symbol its last one, and the class permissions exist |
| Linker.RolesNeedOne | crates/policy/libsepol/src/avrule_block.c:174-181 | one declaration is enough for roles and users |
| Linker.DeclsAreNumbered | crates/policy/libsepol/src/avrule_block.c:177-184 | declaration numbers count from 1 |
| Linker.OthersNeedLast | crates/policy/libsepol/src/avrule_block.c:182-189 | other symbols need their last declaration |
| Linker.MetMonotone | crates/policy/libsepol/src/link.c:1927-2014 | enabling more declarations keeps requirements met |
| Linker.UnmetIsOutside | crates/policy/libsepol/src/link.c:2173-2187 | a block that is disabled is in no stable set |
| Linker.IsDeclRequiresMet | crates/policy/libsepol/src/link.c:1927-2014 | 1 exactly when all required symbols are enabled and all required permissions exist |
| Linker.IsIdEnabled | crates/policy/libsepol/src/avrule_block.c:155-190 | a declared symbol is enabled if its last declaration is, or any declaration for roles and users |
| Linker.EnableElse | crates/policy/libsepol/src/link.c:2190-2207 | else branches of blocks whose first branch was disabled |
| RoleAttributes.ExpandAll | crates/policy/libsepol/src/link.c:2351-2403 | each visited attribute is left with exactly the regular roles reachable from it, in any order in which the run ends, although earlier attributes are already rewritten |
| RoleAttributes.ExpandRole | crates/policy/libsepol/src/link.c:2375-2400 | the restarting scan ends (a weight per attribute drops) with the regular roles of the attribute |
| RoleAttributes.ClosureIsReachability | crates/policy/libsepol/src/link.c:2351-2403 | the roles an attribute stands for are those a chain of memberships leads to |
| RoleAttributes.EndsUnlessTrapped | crates/policy/libsepol/src/link.c:2375-2400 | the scan of one attribute ends if and only if its bitmap reaches no cycle of attributes that avoids it |
| RoleAttributes.EndsInEveryOrder | crates/policy/libsepol/src/link.c:2572-2575 | the whole run ends in every order if and only if no attribute reaches a cycle that avoids it in the graph at the start |
| RoleAttributes.AcyclicEnds | crates/policy/libsepol/src/link.c:2572-2575 | without any cycle the run ends in every order |
| RoleAttributes.AvoidedCycle | crates/policy/libsepol/src/link.c:2375-2400 | an attribute whose member lies on a cycle of two others is scanned for ever |
| RoleAttributes.ReplaceLosesWeight | crates/policy/libsepol/src/link.c:2376-2399 | replacing an attribute by its members loses weight, even when a removed bit returns |
| RoleAttributes.RewrittenStandsForTheSame | crates/policy/libsepol/src/link.c:2351-2403 | rewriting one attribute changes what no attribute stands for |
| AddRule.SepolAddRule | crates/policy/src/sepol_impl.rs:1140-1173 | with known names exactly the meant bits of the meant triples are set or cleared, for no other kind: a name means its first entry, a type wildcard any entry, but only attributes for rules that add permissions; otherwise -1 and nothing changes; a fully wildcarded deny leaves no allow node over the symbols of the policy |
| AddRule.ExpandRule | crates/policy/src/sepol_impl.rs:216-288 | the same for chosen arguments; aliases visited twice do no harm |
| AddRule.TypeArgIsMeant | crates/policy/src/sepol_impl.rs:235-272 | what a type argument stands for: the first entry of the name, any entry for a stripping wildcard, any attribute for an adding one |
| AddRule.FindIsFirst | crates/policy/libsepol/src/hashtab.c:183-205 | a search finds the first entry of the name in any bucket |
| AddRule.AddRuleImpl | crates/policy/src/sepol_impl.rs:167-212 | one mask is edited and its node stays only if the mask says something |
| AddRule.StoreMask | crates/policy/src/sepol_impl.rs:195-212 | a redundant node is dropped, and no effective mask changes by that |
| AddRule.FindOrInsert | crates/policy/src/sepol_impl.rs:183-194 | inserting the neutral node changes no effective mask |
| AddRule.DenyAllLeavesNothing | crates/policy/src/sepol_impl.rs:216-288 | after an edit of the full product with no permission named, no allow node is left between symbols of the policy |
| AddRule.AddThenRemove | crates/policy/src/sepol_impl.rs:195-211 | removing right after adding gives the old mask back exactly when the permission was not there before |
| XpermRule.AddXpermRuleImpl | crates/policy/src/sepol_impl.rs:292-450 | a key keeps one driver node and one function node per driver, and its set of 16-bit commands is S + W after a plain call and all - W after a reset call, where W is a range given by its bounds; all else stays |
| XpermRule.AddXpermRules | crates/policy/src/lib.rs:272-282 | any sequence of calls, the first call first |
| XpermRule.NamedIsRange | crates/policy/src/sepol_impl.rs:386-393 | a call is about its exact range within one driver, and about whole drivers otherwise |
| XpermRule.NamedRounds | crates/policy/src/sepol_impl.rs:420-431 | a range that spans drivers is rounded to whole drivers |
| XpermRule.Collect | crates/policy/src/sepol_impl.rs:309-326 | the search loop finds all of the key's driver and function nodes |
| XpermRule.ResetCommands | crates/policy/src/sepol_impl.rs:361-415 | the reset branch: everything but the range |
| XpermRule.PlainCallsUnite | crates/policy/src/sepol_impl.rs:416-450 | calls without reset accumulate in any order |
| XpermRule.ComplementedList | crates/policy/src/lib.rs:272-282 | a complemented list excludes all it lists if and only if its last range covers the others |
| XpermRule.ComplementedPair | crates/policy/src/lib.rs:272-282 | `~{ 0x8910 0x892A }` leaves 0x8910 allowed |
| XpermRule.WriteBits | crates/policy/src/sepol_impl.rs:19-34 | the loop that sets or clears a range of bits |
| Assertion.CheckAssertion | crates/policy/libsepol/src/assertion.c:634-653 | 1 exactly when the checker's loops meet a violation; unless an extended rule mixes self with other pairs this is exactly a violation, and, for nonempty permission bytes, exactly a grant of what is forbidden, command by command |
| Assertion.ExactUnlessMixed | crates/policy/libsepol/src/assertion.c:419-497 | the report misses no violation in any policy if and only if the rule does not mix self with other pairs; the checker likewise for extended rules, and always without them |
| Assertion.MixedIsMissed | crates/policy/libsepol/src/assertion.c:308-312 | a policy whose violation a mixed rule misses |
| Assertion.ViolatedIsInfringed | crates/policy/libsepol/src/assertion.c:97-120 | in terms of bits: an allow rule grants, through attributes, a permission the rule forbids for the pair, and no extended rule of a known kind restricts it, or one shares a command |
| Assertion.CheckIsSharing | crates/policy/libsepol/src/assertion.c:97-120 | two extended permission sets pass the check and are nonempty exactly when they share a command |
| Assertion.ViolatedIsCommon | crates/policy/libsepol/src/assertion.c:123-156 | the reported commands are those both sets have |
| Assertion.CheckXpermsAvtab | crates/policy/libsepol/src/assertion.c:363-401 | no recognised extended rule covers the pair, or one shares a command, despite early exits |
| Assertion.CheckXperms | crates/policy/libsepol/src/assertion.c:419-497 | the same over all source and target pairs the loops visit |
| Assertion.CheckNotselfMatch | crates/policy/libsepol/src/assertion.c:499-552 | some pair of different types is forbidden |
| Assertion.CheckSelfMatch | crates/policy/libsepol/src/assertion.c:554-578 | some type is forbidden against itself |
| Assertion.CheckAvtabMatch | crates/policy/libsepol/src/assertion.c:580-632 | the rule offends against the assertion |
| Assertion.CheckTable | crates/policy/libsepol/src/assertion.c:643-650 | avtab_map over a table |
| Assertion.MatchAnyClassPermissions | crates/policy/libsepol/src/assertion.c:77-85 | a class and a permission are shared |
| Assertion.ReportAvtabMatches | crates/policy/libsepol/src/assertion.c:236-331 | the error count grows exactly when the loops meet a violation |
| Assertion.ReportXperms | crates/policy/libsepol/src/assertion.c:159-234 | an error exactly for an unrestricted pair or a shared command |
| Assertion.ReportAssertionFailures | crates/policy/libsepol/src/assertion.c:333-357 | errors are counted exactly when there is a violation the loops meet |
| Assertion.CheckAssertions | crates/policy/libsepol/src/assertion.c:655-691 | -1 exactly when some assertion is broken, for rules that are not mixed |
| Reload.DumpAndReload | crates/policy/src/sepol_impl.rs:858-938 | printing all access vector rules and reading the lines into an empty table gives the same masks on all named permissions of named triples, and nothing else |
| Reload.UnhiddenLeadsBack | crates/policy/src/sepol_impl.rs:881-925 | printed permission names lead back to their bits, whichever is chosen, if and only if no inherited permission is hidden behind a name of the class itself |
| Reload.ParseStatement | crates/policy/src/statement.rs:333-346 | allow and auditallow add exactly the meant bits to their kind, deny takes them from what is allowed and dontaudit from what is audited when denied; no other kind changes; a comment or a syntax error changes nothing |
| Reload.AllowThenDeny | crates/policy/src/lib.rs:220-243 | what is denied right after it was allowed is not allowed, and all else is as before |
| Reload.LineCommand | crates/policy/src/statement.rs:358-386 | a printed line is parsed as the rule it was printed for |
| Reload.LineHits | crates/policy/src/sepol_impl.rs:858-938 | the names of a printed line resolve to just the triple and bits of its rule |
| Dump.PrintAvtabRules | crates/policy/src/sepol_impl.rs:858-938 | every rule that shows a named permission is printed once, with its mask |
| Dump.PrintNode | crates/policy/src/sepol_impl.rs:858-938 | one node: its action word, names, and the permissions of its shown bits |
| Dump.LineMeans | crates/policy/src/sepol_impl.rs:858-938 | the word of the kind, the names at the places of the values, and granted permissions, or unaudited ones in a dontaudit line |
| Dump.PermNames | crates/policy/src/sepol_impl.rs:881-925 | own permission names come first, inherited ones fill the gaps |
| Statement.PlainIsIdentifier | crates/policy/src/statement.rs:275-322 | a word is one identifier if and only if it is no keyword, no number and has no separator |
| Statement.RuleParsesBack | crates/policy/src/statement.rs:358-386 | a rule written with plain names is parsed back |
| Statement.WrittenStatement | crates/policy/src/statement.rs:358-386 | the four action words, as written, give their four commands |
| Statement.StermForms | crates/policy/src/statement.rs:151-173 | a term is a name, a star, or names and stars in braces, a star leaving no names; nothing else is a term |
| Statement.HexReadsBack | crates/policy/src/statement.rs:175-178 | a 16-bit number in hexadecimal of either case, also with a plus sign, is read back, a larger one refused |
| Statement.TokenizeStatement | crates/policy/src/statement.rs:324-330 | the tokens of all words, in order |
| Statement.ParseSterm | crates/policy/src/statement.rs:151-173 | a name, a star, or a braced list, with what is left |
| Statement.ParseAv | crates/policy/src/statement.rs:358-386 | the four terms of an access vector statement and nothing after them |
| RuleLists.AddRules | crates/policy/src/lib.rs:220-269 | exactly the bits that some combination of the listed names means are set or cleared, in one kind |
| RuleLists.ExpandWildcard | crates/policy/src/lib.rs:519-525 | an empty list stands for the wildcard name |
| CondExpr.CondEvaluateExpr | crates/policy/libsepol/src/conditional.c:211-268 | the array stack machine computes the answer of the pure machine |
| CondExpr.AnswerIsValue | crates/policy/libsepol/src/conditional.c:211-268 | for any tokens: the value of the first expression they consist of, and -1 if they are not made of expressions, are none, or need too deep a stack |
| CondExpr.TreeAnswer | crates/policy/libsepol/src/conditional.c:211-268 | for the postfix form of a tree: its value exactly when the stack suffices |
| CondExpr.BooleanMeaning | crates/policy/libsepol/src/conditional.c:220-226 | a boolean alone has its own state |
| CondExpr.ConnectiveMeaning | crates/policy/libsepol/src/conditional.c:227-262 | or, and, xor, eq, neq and not, by the answers of their operands |
| CondExpr.ParseWritesBack | crates/policy/libsepol/src/conditional.c:211-268 | what is read as trees writes back as the same tokens |
| CondNormalize.CondNormalizeExpr | crates/policy/libsepol/src/conditional.c:344-438 | the same rule list is selected under every assignment, exactly the distinct booleans are recorded, bit k is the value under assignment k, and every boolean is restored on success |
| CondNormalize.SwapSelectsTheSame | crates/policy/libsepol/src/conditional.c:358-384 | dropping a final negation and swapping the lists selects the same list if and only if the expression is undefined, is a single expression, or the lists are equal |
| CondNormalize.KeepsBranches | crates/policy/libsepol/src/conditional.c:358-384 | so single expressions keep their branches |
| CondNormalize.Precompute | crates/policy/libsepol/src/conditional.c:404-436 | the truth table, and the values left in the booleans on the error exit |
| CondNormalize.FindBools | crates/policy/libsepol/src/conditional.c:386-402 | the recorded booleans and their count |
| CondNormalize.BoolPresent | crates/policy/libsepol/src/conditional.c:62-76 | membership among the recorded booleans |
| CondNormalize.SameBools | crates/policy/libsepol/src/conditional.c:78-93 | the same number, and each of one recorded in the other |
| CondNormalize.CondExprEqual | crates/policy/libsepol/src/conditional.c:98-135 | compares counts, booleans as sets and tables, or the expressions when there are too many booleans |
| CondNodes.AlignedIsExact | crates/policy/libsepol/src/conditional.c:105-117 | with the same recorded booleans in the same order, equal means equivalent |
| CondNodes.ExactWhenAligned | crates/policy/libsepol/src/conditional.c:105-117 | for all expressions that record `a` and `b`, equal means equivalent if and only if the records are the same in the same order |
| CondNodes.SwappedCompareEqual | crates/policy/libsepol/src/conditional.c:111-114 | `x && !y` and `y && !x` compare as equal and are not equivalent |
| CondNodes.LargeIsSound | crates/policy/libsepol/src/conditional.c:118-133 | with too many booleans only identical expressions are equal |
| CondNodes.EqualUpToPositions | crates/policy/libsepol/src/conditional.c:111-114 | what equal tables mean: the same values with the booleans matched by position |
| CondNodes.ScanIsMentioned | crates/policy/libsepol/src/conditional.c:386-402 | up to the limit exactly the distinct booleans are recorded |
| CondState.Policydb.BoolSet | crates/policy/libsepol/src/booleans.c:82-104 | on an error nothing changes; otherwise the boolean is set and every conditional and ENABLED bit follows |
| CondState.Policydb.BoolSets | crates/policy/libsepol/src/booleans.c:82-104 | every run of calls keeps the invariant, and the booleans are what the successful calls made them |
| CondState.Policydb.BoolUpdate | crates/policy/libsepol/src/booleans.c:14-52 | an unknown name or a value other than 0 and 1 is refused |
| CondState.Policydb.EnabledIsSelected | crates/policy/libsepol/src/conditional.c:309-338 | in a consistent policy the enabled rules are those of the selected branches |
| CondState.Policydb.EnabledByValue | crates/policy/libsepol/src/conditional.c:309-338 | the true rules are enabled exactly when the expression holds, the false ones when it does not, none when it is too deep |
| CondState.Policydb.ComputeAv | crates/policy/libsepol/src/conditional.c:861-887 | in every reachable state the decision takes in exactly the rules of the selected branches |
| CondState.EvaluateCondNode | crates/policy/libsepol/src/conditional.c:309-338 | state and ENABLED bits agree with the value; both branches off when undefined |
| CondState.EvaluateConds | crates/policy/libsepol/src/conditional.c:440-451 | the same for all conditionals |
| CondState.CondComputeAv | crates/policy/libsepol/src/conditional.c:861-887 | the contributions of all enabled matching rules of each kind |
| CondText.CondExprToStr | crates/policy/libsepol/src/kernel_to_conf.c:31-118 | succeeds exactly on the postfix form of one expression, with its text (both styles) |
| CondText.Render | crates/policy/libsepol/src/kernel_to_cil.c:32-120 | one turn of the loop in either style |
| CondText.Connectives | crates/policy/libsepol/src/kernel_to_conf.c:31-118 | the texts of the connectives in both styles |
| CondText.Placement | crates/policy/libsepol/src/kernel_to_cil.c:32-120 | between the operands in policy.conf, before them in CIL |
| CondText.TextReadsBack | crates/policy/libsepol/src/kernel_to_cil.c:32-120 | the text, with anything behind it, reads back as the expression |
| Categories.CatsEbitmapToStr | crates/policy/libsepol/src/kernel_to_conf.c:1057-1113 | the text and its NUL fill the buffer exactly, so the overflow exit is never taken |
| Categories.CatsEbitmapLen | crates/policy/libsepol/src/kernel_to_conf.c:1030-1055 | the sum of the run lengths |
| Categories.LengthIsExact | crates/policy/libsepol/src/kernel_to_conf.c:1030-1055 | that sum is the length of the text and its NUL |
| Categories.ReadCategories | crates/policy/libsepol/src/mls.c:365-422 | the loop reads what the list stands for, or fails |
| Categories.EntryForms | crates/policy/libsepol/src/mls.c:378-416 | a name is its category, two names a range if the first is smaller, and anything else an error |
| Categories.ReadJoined | crates/policy/libsepol/src/mls.c:367-421 | entries joined with a comma |
| Categories.DashEnds | crates/policy/libsepol/src/mls.c:369-421 | a dash ends the list |
| Categories.ReadsBack | crates/policy/libsepol/src/mls.c:365-422 | a printed category list is read back as the same set |
| ModulePackage.ReadsBackWhenFits | crates/policy/libsepol/src/module.c:467-650 | a written package is read back with every section if and only if its section offsets fit 32 bits |
| ModulePackage.PackageReadsBack | crates/policy/libsepol/src/module.c:467-650 | if they fit, for every subset of the sections |
| ModulePackage.WrappedIsLost | crates/policy/libsepol/src/module.c:376-458 | if one wraps around, the package is refused or something else is read |
| ModulePackage.Write | crates/policy/libsepol/src/module.c:865-985 | the image of a package, or -1 for an empty policy or seusers without a base |
| ModulePackage.CalculateOffsets | crates/policy/libsepol/src/module.c:916-947 | each offset is where its section starts, as a 32-bit word |
| ModulePackage.Read | crates/policy/libsepol/src/module.c:467-650 | what a file holds by its offsets; short, repeated or invalid sections are errors |
| ModulePackage.ReadPackageOffsets | crates/policy/libsepol/src/module.c:376-458 | magic number, version, and increasing offsets within the file |
| ModulePackage.SectionReadsBack | crates/policy/libsepol/src/module.c:481-634 | each section of a written package is read as it was, its length found by subtraction |
| AvTables.Avtab.constructor | crates/policy/libsepol/src/avtab.c:364-393 | an empty table |
| AvTables.Avtab.InsertNode | crates/policy/libsepol/src/avtab.c:94-135 | the node is spliced in behind `prev`; chains stay ordered and in their slot |
| AvTables.Avtab.Insert | crates/policy/libsepol/src/avtab.c:137-175 | EEXIST exactly for a second non-xperm rule of an overlapping kind; otherwise one node joins its group |
| AvTables.Avtab.InsertNonunique | crates/policy/libsepol/src/avtab.c:182-212 | one node joins its group; no other group changes |
| AvTables.Avtab.SearchNode | crates/policy/libsepol/src/avtab.c:214-278 | the first overlapping node of the group, despite early exit |
| AvTables.Avtab.SearchNodeNext | crates/policy/libsepol/src/avtab.c:280-306 | the next overlapping node of the group |
| AvTables.Avtab.Walk | crates/policy/libsepol/src/avtab.c:334-355 | every node is visited exactly once |
| AvTables.Avtab.RemoveNode | crates/policy/src/sepol_impl.rs:122-154 | the node leaves its group, or -1 if it is not in the table |
| AvTables.Avtab.ChainsAreSorted | crates/policy/libsepol/src/avtab.c:147-170 | chains are in lexicographic order of source, target and class |
| AvTables.Avtab.FirstOverlap | crates/policy/libsepol/src/avtab.c:249-278 | a search finds something exactly when some node for the triple shares a kind bit |
| AvTables.StopsAtFirst | crates/policy/libsepol/src/avtab.c:147-170 | stopping at a larger triple loses nothing, and is where a new node keeps the order |
| AvTables.StopsAtNext | crates/policy/libsepol/src/avtab.c:280-306 | the same from a node on |
| Hashtables.Hashtab.constructor | crates/policy/libsepol/src/hashtab.c:37-63 | an empty table |
| Hashtables.Hashtab.Insert | crates/policy/libsepol/src/hashtab.c:104-143 | one more binding, or EEXIST for a bound key |
| Hashtables.Hashtab.Remove | crates/policy/libsepol/src/hashtab.c:145-181 | the binding goes, or ENOENT |
| Hashtables.Hashtab.Search | crates/policy/libsepol/src/hashtab.c:183-205 | what is bound, despite early exit |
| Hashtables.Hashtab.Map | crates/policy/libsepol/src/hashtab.c:231-252 | each binding once |
| Hashtables.Hashtab.CheckResize | crates/policy/libsepol/src/hashtab.c:65-102 | the rehash keeps every binding and every chain sorted |
| Hashtables.Rehash | crates/policy/libsepol/src/hashtab.c:84-99 | every node ends in the chain of its new slot |
| Hashtables.GrownSize | crates/policy/libsepol/src/hashtab.c:70-76 | doubling ends for every size, although it wraps at 32 bits |
| Ebitmaps.OrInto | crates/policy/libsepol/src/ebitmap.c:18-57 | union, canonical with the exact high bit |
| Ebitmaps.Union | crates/policy/libsepol/src/ebitmap.c:59-70 | union in place, canonical with the exact high bit |
| Ebitmaps.AndInto | crates/policy/libsepol/src/ebitmap.c:72-111 | intersection, canonical with the exact high bit |
| Ebitmaps.XorInto | crates/policy/libsepol/src/ebitmap.c:113-160 | symmetric difference, canonical with the exact high bit |
| Ebitmaps.Not | crates/policy/libsepol/src/ebitmap.c:162-207 | complement below `maxbit`, canonical with the exact high bit |
| Ebitmaps.AndNot | crates/policy/libsepol/src/ebitmap.c:209-222 | difference below `maxbit`, canonical with the exact high bit |
| Ebitmaps.Copy | crates/policy/libsepol/src/ebitmap.c:271-297 | the same list, canonical with the exact high bit |
| Ebitmaps.Cardinality | crates/policy/libsepol/src/ebitmap.c:224-233 | the number of members, without overflow |
| Ebitmaps.HammingDistance | crates/policy/libsepol/src/ebitmap.c:235-248 | the size of the symmetric difference, as an int |
| Ebitmaps.Cmp | crates/policy/libsepol/src/ebitmap.c:250-269 | set equality |
| Ebitmaps.CanonicalIsUnique | crates/policy/libsepol/src/ebitmap.c:250-269 | a set has one canonical list |
| Ebitmaps.Contains | crates/policy/libsepol/src/ebitmap.c:299-324 | inclusion |
| Ebitmaps.MatchAny | crates/policy/libsepol/src/ebitmap.c:326-346 | overlap |
| Ebitmaps.GetBit | crates/policy/libsepol/src/ebitmap.c:348-367 | membership |
| Ebitmaps.SetBit | crates/policy/libsepol/src/ebitmap.c:369-441 | one bit takes the value, nothing else changes; the highest chunk is refused |
| Ebitmaps.InitRange | crates/policy/libsepol/src/ebitmap.c:443-489 | exactly the range; an inverted range and the highest chunk are refused |
| Ebitmaps.Read | crates/policy/libsepol/src/ebitmap.c:530-633 | accepts exactly the images with a canonical body and exact high bit, and any image that announces no bit |
| Ebitmaps.CounterNeverReaches | crates/policy/libsepol/src/ebitmap.c:173 | above the bound required by `Not` its counter never reaches `maxbit` |

## Left out

- Words and permission sets are sets of one-bits, so `|`, `&` and `& ~` are set operations; only `specified`, whose bit tests matter, is a bit vector.
- Running out of memory, logging, files and streams, and freeing; the 32-bit failure of calloc in the resize.
- `avtab_hash` and the symbol hash: any function into the table; the key comparison of the hash table: any total order.
- Iterating over a bitmap is in increasing order over a set; outside `Ebitmap.dfy` a bitmap is that set.
- Ebitmaps: the node list is a `seq<Chunk>` field, so the pointer work of these functions is not modelled, unlike that of `Avtab.dfy` and `Hashtab.dfy`.
- Ebitmaps.Not: requires `maxbit` at most 2^32 - 64, because above it the loop does not end; `AndNot` likewise.
- Ebitmaps.Read: the image comes as words and chunks, not bytes; a truncated body is one with too few chunks.
- Ebitmap destruction and `ebitmap_highest_set_bit`.
- Hierarchy.CoveredExactly: the branches of different conditionals are chosen independently; booleans shared by conditionals allow fewer states, for which the soundness direction still holds.
- Hierarchy: `attr_type_map` is given as the type numbers it stands for, not as bits.
- Hierarchy: tables of branches that are absent are empty tables; null entries of type_val_to_struct are types without a bound.
- RoleAttributes.ExpandAll: requires that the run ends (`Ends`), which acyclicity, or the exact condition of `EndsInEveryOrder`, gives; the code does not check it.
- Expand.ExpandNode: the four branches on attribute or type are one product of member sequences.
- Expand.InsertEntry: rules of unconditional tables, which never have the ENABLED bit.
- Expand: `type_set_expand` and `map_ebitmap`, set algebra that would only add easy members, and `expand_terule_helper`.
- RoleAttributes.ExpandEntry: the role object_r, which the code skips by name, counts as a regular role.
- Linker: the debug output of missing requirements, and the error for a class without scope data, which is unreachable.
- AddRule: symbol tables are buckets of name and datum; null datums are not there.
- XpermRule: wildcards of extended rules (`expand_xperm_rule`) and the parser of command ranges.
- Assertion: the int error count is a natural number, so its overflow is not modelled; messages are left out.
- Assertion.ViolatedIsInfringed: assumes that extended permission sets are nonempty sets of bytes.
- Statement.ParseAv: statements other than allow, deny, auditallow and dontaudit.
- Reload.DumpAndReload: assumes names that are plain identifiers, lead back to their values, and permissions that are not hidden (`Unhidden`); trimming of statements, which does not change their words.
- Dump: type rules and extended rules of the printer, genfscon and filename transitions; `sepol_add_filename_trans`.
- CondExpr: boolean states are `bool`; the depth bound is the constant 10.
- CondNormalize: COND_MAX_BOOLS is the constant 5.
- CondState: conditionals and their rules are given; reading them from a policy is not modelled.
- `cond_optimize` and the printing of constraints.
- CondText: allocation sizes of the texts; names must not have spaces, parentheses or `!`, which names of a policy do not have.
- Categories.ReadCategories: the category loop of `mls_context_to_sid` only, not its sensitivities and ranges; the printer of `kernel_to_cil.c`, whose length does not match its text.
- Categories.CatsEbitmapToStr: lengths beyond int.
- ModulePackage: a policy is its image, and `policydb_read` any parser that takes an image back from its front; `sepol_module_package_info`, linking of packages.
- Hashtables: `hashtab_destroy` and the statistics.
