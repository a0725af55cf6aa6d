# Verification of the es2panda front end

Es2panda compiles JavaScript and TypeScript. This project models, in Dafny, the parts of its front end whose
correctness is not visible from one function body, and proves what those parts are for. Where the source changes
objects, lists or positions step by step, so does the model: classes and loops, each proved against a function or
predicate about which the theorems are stated.

| part | files | what is proved |
|---|---|---|
| operator parsing | `ExprSyntax`, `RotationParser`, `PrecedenceClimbing`, `ClimbingTheory`, `RotationTheory`, `ChainTheorems`, `FlatChains`, `TableAgreement`, `NullishRule`, `ExprGrammar`, `ExpressionParser` | Parsing the right-hand side by recursion and then repairing precedence by rotating the left spine is precedence climbing and builds the one tree of the grammar, level by level; tokens are conserved; what is accepted, and where the tree is that of ECMA-262, is told from the tokens |
| lexical addresses | `ScopeTree`, `LexicalAddress`, `LexicalCapture`, `ClassLevel`, `MandatoryParams`, `ArrowThis`, `BindingRun`, `FinalAddresses`, `ScopePlaces`, `HiddenParams`, `VisitOrder`, `FunctionOrder`, `FunctionObject`, `LexicalBinder` | Every (level, slot) address reaches the right cell of the run-time environments; capture is exact; slots are dense and never alias, those of class members included; which arrows get their `this`, `new.target` and function object |
| private members | `PrivateMembers`, `ClassEnvironment` | What the parser accepts, the layout of slots, and truthful lookups |
| function names | `Strings`, `ScopeNames`, `ScopeNameTheory`, `NameInjectivity`, `NamePaths`, `NameBinder`, `LegacyNames` | No two functions get one internal name, over any run; what each name is made of; compression of names is stable, injective and never longer |
| scanners | `Digits`, `TemplateText`, `TemplateTheory`, `EscapeValues`, `RadixLiteral`, `Scanner`, `KeywordSearch` | The two scans of a template element agree; what each escape stands for; literals with a radix have the right language and value; the keyword search |
| dependency resolver | `DepsGraph`, `ImportTargets`, `DepsResolver` | The worklist computes exactly the least closed set of records; where each import leads |
| statement update | `StatementSplice` | Editing a list under its iterator is a flat-map |

## Where the code differs from what one expects

These are results, each with a concrete witness and, except for the names, the exact condition:

- `&&` and `|` share a precedence level. The tree is that of ECMA-262 if and only if no `|`, at any nesting, follows a
  `&&` with only tighter operators between the two (`TableAgreement.ParserAgreesWithEcma`, `ChainTheorems.ClashExample`).
- The check against mixing `??` with `&&` and `||` looks at the root of the right-hand side only. A chain slips through
  if and only if it has nothing logical before its last `??`, and behind it no `||`, at least one `&&`, and a `|` behind
  the last `&&` (`NullishRule.LeakAt`, `NullishRule.AcceptedByTokens`, `NullishRule.LeafChainAccepted`,
  `NullishRule.LeakIsAccepted`).
- The lookup of private names lacks the parameter-scope case that the lookup of variables has; its level is right if
  and only if no captured function is entered through a default value on the way to the class
  (`ClassLevel.PrivateLevelByWalk`, `ClassLevel.DefaultValueMissesClass`).
- Functions in default values come before their function in the list (`VisitOrder.DefaultsComeFirst`), so an arrow
  finds the `this` of its nearest enclosing ordinary function if and only if it stands in the body of that function
  and that function is listed (`FunctionOrder.ArrowSeesEnclosingFromBody`, `FunctionOrder.DefaultArrowMissesThis`).
- An arrow that is taken for one of a derived constructor and uses `super` finds the function object of its nearest
  enclosing ordinary function if and only if that function comes earlier in the list and no arrow between them binds its
  own (`FunctionObject.ConstructorArrowFindsFunc`, `FunctionObject.PlainArrowHidesConstructor`). The source looks for the
  constructor along syntax parents, so an arrow in a field initializer of a class inside a derived constructor counts as
  an arrow of that constructor, although its enclosing ordinary function is the initializer.
- Names that hold the marks of the naming schemes can make two functions share a name (`NameInjectivity.MarkedNamesCollide`,
  `LegacyNames.MarkedNameCollides`). Uniqueness is therefore stated for names without the marks; for the older scheme it is enough
  that no name begins with one, and the 64-bit hash must separate the contents that occur.
- A braced escape without digits is read as U+0000, and that is the only difference from ECMA-262
  (`TemplateTheory.CodePointEscapeIsEcma`, `TemplateTheory.EmptyCodePointEscape`).

## Model

| member | source | states |
|---|---|---|
| `RotationTheory.ParsersAgree` | es2panda/parser/expressionParser.cpp:1164-1319 | Main theorem of the operator layer: on every token sequence, from every position, recursive descent with left-spine rotation builds the tree of precedence climbing over the same table and stops at the same token, and fails exactly where climbing fails or the climbed tree has an early error |
| `RotationTheory.RotationIsClimbing` | es2panda/parser/expressionParser.cpp:1268-1310 | For any first operand and operator: splicing them into the greedily parsed rest gives what the climbing loop gives on the whole chain |
| `RotationTheory.SpliceThroughClimb` | es2panda/parser/expressionParser.cpp:1283-1299 | Splicing commutes with everything the climbing loop does afterwards, once the next operator is looser |
| `RotationTheory.SpliceEarlyErrors` | es2panda/parser/expressionParser.cpp:1248-1254 | The tree after a rotation is free of early errors exactly when both parts are and the checks made at the root of the right-hand side pass: the root check covers the whole spine |
| `RotationTheory.ChecksAlongSpine` | es2panda/parser/expressionParser.cpp:1270-1306 | Moving one node down the spine never changes the verdict of the `**` and `??` checks |
| `RotationTheory.OperatorCase` | es2panda/parser/expressionParser.cpp:1242-1319 | One binary operator with the optional conditional on its right: the repaired tree is the textbook tree, the conditional keeps its branches and gets the whole chain as its test |
| `RotationTheory.TernaryCase` | es2panda/parser/expressionParser.cpp:740-754 | A conditional after a single operand agrees with the textbook one, errors included |
| `RotationTheory.PrimariesAgree` | es2panda/parser/expressionParser.cpp:613-625 | Operands and parenthesised operands agree; the grouped flag is set on what the parentheses close |
| `ClimbingTheory.ChainRespectsTable` | es2panda/parser/expressionParser.cpp:1164-1231 | The reference parser is right: every tree it builds respects the precedence table, left-associative except `**`, and it stops only where no operator of the level continues |
| `ClimbingTheory.ClimbInTwoStages` | es2panda/parser/expressionParser.cpp:1280-1286 | Climbing at a low level is climbing at a higher one first and going on from there |
| `ClimbingTheory.ExpressionIsMaximal` | es2panda/parser/expressionParser.cpp:163-202 | A whole expression never ends in front of an operator or a question mark |
| `ClimbingTheory.RootBindsLeast` | es2panda/parser/expressionParser.cpp:1164-1231 | In a tree that respects the table no operator of the chain binds more loosely than the root |
| `ClimbingTheory.UniqueParse` | es2panda/parser/expressionParser.cpp:1164-1231 | Unique parse: for either operator table, a chain of operands and operators has at most one tree that respects it |
| `ExprGrammar.ParserFollowsGrammar` | es2panda/parser/expressionParser.cpp:1164-1319 | Main theorem on meaning: from every position the chain that the code builds is the one tree that reads as the chain of the tokens and is nested level by level, with the operators of each level named: `**`, then `* / %`, `+ -`, the shifts, the relations, the equalities, `&`, `^`, then `&&` and bitwise or together, `&#124;&#124;`, `??` |
| `ExprGrammar.ReferenceFollowsGrammar` | es2panda/parser/expressionParser.cpp:1164-1231 | The reference parser builds the one tree of sections 13.6 to 13.13 of ECMA-262, in which bitwise or binds tighter than `&&` |
| `ExprGrammar.CodeIsGrammar` | es2panda/parser/expressionParser.cpp:1164-1231 | A chain respects the table of the code if and only if it is nested by these levels |
| `ExprGrammar.EcmaIsGrammar` | es2panda/parser/expressionParser.cpp:1164-1231 | A chain respects the reference table if and only if it is nested by the levels of ECMA-262 |
| `ExprGrammar.ShortCircuitIs` | es2panda/parser/expressionParser.cpp:1270-1306 | Nested by these levels and not mixing `??` with `&#124;&#124;` or `&&` is the grammar of section 13.13, in which `??` stands over bitwise or only |
| `ChainTheorems.SpliceIsTheParse` | es2panda/parser/expressionParser.cpp:1268-1310 | A tree is the result of the rotation if and only if it respects the table and reads, left to right, as the left operand, the operator and the old chain |
| `ChainTheorems.ParseKeepsTokens` | es2panda/parser/expressionParser.cpp:1242-1319 | Conservation, for the whole tree: read in order, the accepted tree is exactly the consumed tokens without parentheses, nothing lost, doubled or reordered; it is free of early errors; every chain of it, inside parentheses and branches too, respects the table, and no `&#124;&#124;` or `&&` has an ungrouped `??` as an operand |
| `ChainTheorems.ExpressionKeepsTokens` | es2panda/parser/expressionParser.cpp:1242-1319 | The same conservation for the reference parser over either table |
| `ChainTheorems.ExpressionRespects` | es2panda/parser/expressionParser.cpp:1164-1231 | Every chain of a tree of the reference parser respects the table, at every nesting |
| `ChainTheorems.RespectedIsUnmixed` | es2panda/parser/expressionParser.cpp:1270-1306 | Where the table is respected everywhere, `??` is never an ungrouped operand of `&#124;&#124;` or `&&`: the direction that the check on `??` does not look at |
| `FlatChains.ChainIsFlat` | es2panda/parser/expressionParser.cpp:1242-1319 | Bracketing only: a chain, read flat from the tokens, and its parse over either table succeed together and end together; the tree reads back as the flat chain and respects the table |
| `TableAgreement.ParserAgreesWithEcma` | es2panda/parser/expressionParser.cpp:1164-1319 | Main theorem on the table: on every token sequence that the code accepts, it ends where the nesting of sections 13.6 to 13.13 of ECMA-262 (ES2023) ends, and builds the same tree if and only if no `&&`, at whatever nesting, is followed by a bitwise or of its own nesting with only tighter operators between the two |
| `TableAgreement.ExpressionsInStep` | es2panda/parser/expressionParser.cpp:1164-1231 | The same for the reference parser over both tables: they fail together, end together, and differ exactly when the tokens clash, through parentheses and branches |
| `TableAgreement.OrIsReached` | es2panda/parser/expressionParser.cpp:1164-1231 | The walk over the tokens, which skips parenthesised operands, reaches a bitwise or exactly when the flat chain has one with only tighter operators in front |
| `ChainTheorems.AgreesWithEcma` | es2panda/parser/expressionParser.cpp:1177-1181 | For one chain: two trees with the same operands and operators, one after each table, are equal if and only if nothing clashes |
| `ChainTheorems.NoClashIsEcma` | es2panda/parser/expressionParser.cpp:1164-1231 | Without such a clash every tree that respects the code's table respects the nesting of ECMA-262 |
| `ChainTheorems.ClashShowsInTree` | es2panda/parser/expressionParser.cpp:1177-1181 | Every clash between two tokens puts an ungrouped `&&` directly to the left of a bitwise or |
| `ChainTheorems.ClashExample` | es2panda/parser/expressionParser.cpp:1177-1181 | Operands a, b, c with `&&` and then bitwise or: the code makes the bitwise or the root, ECMA-262 the `&&` |
| `NullishRule.NullishCheckIsExact` | es2panda/parser/expressionParser.cpp:1270-1306 | The checks on `??`, along one chain, pass if and only if its operators do not mix, as section 13.13 of ECMA-262 demands, or leak: nothing logical before the last `??`, and behind it no `&#124;&#124;`, at least one `&&`, and a bitwise or behind the last `&&` |
| `NullishRule.AcceptedByTokens` | es2panda/parser/expressionParser.cpp:1242-1319 | Main theorem on acceptance, on tokens at every nesting: from any position the code accepts if and only if leaves and groups alternate with operators, the expression inside each group is accepted, no `**` follows an open unary expression, the operators do not mix or leak, and both branches of a conditional behind the chain are accepted |
| `NullishRule.RowIsFlat` | es2panda/parser/expressionParser.cpp:613-625 | The row read from the tokens exists exactly when the chain is well formed with operands free of early errors; it ends where the chain ends and has the same operators |
| `NullishRule.AcceptedByItems` | es2panda/parser/expressionParser.cpp:1242-1319 | The same on the parsed operands: from any position the code accepts if and only if the flat chain there is well formed, no `**` follows an open unary expression, its operators do not mix or leak, its operands are free of early errors, and both branches of a conditional behind it are accepted |
| `NullishRule.LeafChainAccepted` | es2panda/parser/expressionParser.cpp:1242-1319 | On tokens alone: a chain of leaves is accepted if and only if no `**` follows an open unary expression and its operators do not mix or leak |
| `NullishRule.PowersInTree` | es2panda/parser/expressionParser.cpp:1248-1254 | The check on `**` at the nodes of a tree is the check on neighbours in the chain |
| `NullishRule.LeakShowsInTree` | es2panda/parser/expressionParser.cpp:1303-1306 | A leaking chain has `??` at the root and, to its right, an ungrouped bitwise or over the `&&` |
| `NullishRule.LeakIsAccepted` | es2panda/parser/expressionParser.cpp:1303-1306 | A chain of `??`, `&&` and bitwise or, in this order, is accepted although it mixes `??` and `&&` |
| `ExpressionParser.Parser.ParseExpression` | es2panda/parser/expressionParser.cpp:163-202 | The parser on heap nodes: the tree that hangs from the returned node is what the functional parser gives; all its nodes are new and each is reached once |
| `ExpressionParser.Parser.ParsePrimary` | es2panda/parser/expressionParser.cpp:613-625 | An operand, or a parenthesised expression whose root node is marked as grouped |
| `ExpressionParser.Parser.ParseAssignmentExpression` | es2panda/parser/expressionParser.cpp:725-800 | The loop over operators and `? :` after a left operand, on nodes |
| `ExpressionParser.Parser.ParseConditional` | es2panda/parser/expressionParser.cpp:740-754 | A conditional node with the given test and two parsed branches |
| `ExpressionParser.Parser.ParseBinaryExpression` | es2panda/parser/expressionParser.cpp:1242-1319 | One operator: parse the right-hand side, combine; refuses exactly what the checks refuse |
| `ExpressionParser.Parser.CombineThroughTest` | es2panda/parser/expressionParser.cpp:1260-1318 | A conditional on the right is repaired through its test with one `SetTest`; its branches are the same nodes as before, and no node is lost |
| `ExpressionParser.Parser.CombineOperands` | es2panda/parser/expressionParser.cpp:1268-1310 | The new tree is the spliced one, or an error exactly when `??` is mixed |
| `ExpressionParser.Parser.Rotate` | es2panda/parser/expressionParser.cpp:1276-1299 | The walk down the left spine and the single `SetLeft` turn the old tree into the spliced tree, keeping every node of both operands |
| `ExpressionParser.Parser.FindTarget` | es2panda/parser/expressionParser.cpp:1280-1296 | The walk ends, and ends at the node under which the new operator belongs |
| `ExpressionParser.OneSetLeft` | es2panda/parser/expressionParser.cpp:1288-1299 | Setting the left child of that one node changes the value of the whole tree from the old expression to the spliced one |
| `LexicalAddress.FindIsResolve` | es2panda/binder/scope.cpp:94-147 | The level-counting walk finds exactly what innermost-scope resolution finds |
| `LexicalAddress.LeaveCountsEnvironment` | es2panda/binder/scope.cpp:125-140 | Leaving a scope counts an environment exactly when the run-time chain has one there, with the special case for parameter scopes |
| `LexicalAddress.AddressReachesOwner` | es2panda/binder/scope.cpp:76-147 | Address correctness: from every start scope, body or parameter, `lexLevel` steps up the run-time chain reach the environment of the scope that owns the found variable |
| `LexicalAddress.LevelTellsActivations` | es2panda/binder/scope.cpp:99-147 | `level` is positive if and only if the walk left the activation it started in |
| `LexicalAddress.OwnerHeadsChain` | es2panda/binder/scope.h:548-571 | A scope with slots is the first environment of its own code |
| `ScopePlaces.KindsAreThese` | es2panda/binder/variableFlags.h:50-64 | The variable scopes are classes, loops, functions, static blocks, the global and the module scope; those with an activation are the last four |
| `ScopePlaces.OwnerIsInnermost` | es2panda/binder/scope.cpp:149-171 | The owner of the variables of a scope is the innermost scope around it of one of the six kinds, and for a parameter scope its function |
| `ScopePlaces.ActivationIsInnermost` | es2panda/binder/scope.h:215-223 | Code runs in the innermost function, static block or top-level code around it; default values run in their function |
| `ScopePlaces.ChainIsThese` | es2panda/binder/scope.h:548-571 | The run-time chain of a scope has exactly the scopes around it that hold variables and have slots, a function from its parameter scope on |
| `ScopePlaces.ChainIsInsideOut` | es2panda/binder/scope.h:548-571 | The chain goes from the inside out |
| `ScopePlaces.ResolveIsInnermost` | es2panda/binder/scope.cpp:94-147 | A name resolves to the innermost scope around the reference that binds it, and to nothing when none does |
| `ScopePlaces.EnclosingIsInnermost` | es2panda/binder/binder.cpp:1022-1075 | The enclosing ordinary function is the innermost function that is no arrow around a scope, default values included, or the top level |
| `ScopePlaces.CapturedInOwnScope` | es2panda/binder/variable.cpp:42-79 | Once binding is finished a captured variable of a loop, a class or any other scope that holds variables is addressed in the environment of that very scope |
| `ScopePlaces.LoopVariableIsInLoop` | es2panda/binder/scope.h:970-989 | A function in a loop that uses the variable of the loop puts it into the environment of the loop |
| `LexicalCapture.CaptureIsExact` | es2panda/binder/binder.cpp:317-344 | After any run of references a variable is lexically bound if and only if it is local and some reference from another activation resolves to it, or it was bound before |
| `LexicalCapture.ResolveAllKeepsSlots` | es2panda/binder/variable.cpp:42-79 | Slot discipline over any run: a bound variable keeps its slot and owner, the slots of one scope are distinct and fill its counter without gaps |
| `LexicalCapture.SetLexicalKeepsSlots` | es2panda/binder/variable.cpp:42-79 | One capture keeps the slot discipline, whether the variable was found through the parameter scope or the function scope |
| `LexicalCapture.AddressIsRight` | es2panda/binder/scope.cpp:94-147 | After any reference pass from a fresh program every reference to a captured variable addresses an existing slot, namely its own, in the environment of its owner |
| `LexicalCapture.CellsDoNotAlias` | es2panda/binder/variable.cpp:42-79 | After the reference pass two references address the same run-time cell if and only if they are to the same variable |
| `FinalAddresses.FinalAddressIsRight` | es2panda/binder/binder.cpp:197-230 | Main theorem on addresses, once binding is finished, that is after the reference pass and the pass that adds hidden parameters: every reference to a captured variable, captured `this` and `new.target` included, addresses an existing slot, its own, in the environment of its owner |
| `FinalAddresses.FinalCellsDoNotAlias` | es2panda/binder/variable.cpp:42-79 | Once binding is finished two references address the same run-time cell if and only if they are to the same variable |
| `FinalAddresses.ArrowCellIsRight` | es2panda/binder/binder.cpp:1062-1067 | The `this` or `new.target` that an arrow addresses at run time is an existing slot in the environment of its nearest enclosing ordinary function, the slot of that function's own variable, when that function comes earlier in the list |
| `FinalAddresses.ProcessAllKeepsSlots` | es2panda/binder/binder.cpp:1022-1075 | The whole pass that adds hidden parameters keeps the slot discipline: what it captures takes the next slots, what it only adds takes none, class members keep theirs |
| `FinalAddresses.MemberSlotsAreApart` | es2panda/binder/binder.cpp:626-629 | Class members and captured variables share one counter per scope, in whatever order the pass enters classes and captures: once binding is finished each slot that a class took exists, and no captured variable of the class scope has it |
| `FinalAddresses.MemberCellsAreApart` | es2panda/binder/binder.cpp:626-629 | Once binding is finished no reference to a captured variable, made anywhere, reaches a cell of a class member |
| `FinalAddresses.PrivateSlotIsMemberSlot` | es2panda/binder/scope.cpp:215-245 | The slot of each private member is one of those that its class took when the pass entered it |
| `BindingRun.RunCapturesExactly` | es2panda/binder/binder.cpp:317-344 | Over a pass that enters classes between the references: exactly those local variables are captured to which a reference from another activation resolves, and those captured before |
| `BindingRun.MembersHoldSlots` | es2panda/binder/binder.cpp:626-629 | The slots that a class took stay with class members until the end of the pass |
| `ClassEnvironment.SlotsInRange` | es2panda/ir/base/classDefinition.cpp:461-514 | Private members, computed keys, validation slots and the initializer of a class all lie among the slots that it takes |
| `ClassEnvironment.SlotsInOrder` | es2panda/ir/base/classDefinition.cpp:461-514 | The slots of computed keys lie below those of the private members, and those below the validation slots |
| `ClassEnvironment.LookupGivesPrivateSlot` | es2panda/binder/scope.cpp:179-213 | Looked up after the class took its slots, a private name leads to the slot that the class took for a member of that name, for the member itself unless it is an accessor of the other kind |
| `LexicalAddress.ShadowedOwnNameIsAWorld` | es2panda/binder/scope.cpp:500-505 | A function expression whose body declares its own name is covered: its parameter scope and its function scope bind the name to different variables |
| `ClassLevel.PrivateLevelByWalk` | es2panda/binder/scope.cpp:285-307 | The level of a private name is right if and only if each parameter scope on the way to the class is entered through the body of its function, or its function has no environment |
| `ClassLevel.PrivateLevelIsRight` | es2panda/binder/scope.cpp:285-307 | The level computed for a private name reaches the class environment if and only if the walk enters no captured function through a default value of a parameter: the exact condition for a lookup that lacks the parameter-scope case |
| `ClassLevel.CountedAndMissed` | es2panda/binder/scope.cpp:285-307 | Counted and missed environments add up to those really passed |
| `ClassLevel.BodiesMissNothing` | es2panda/binder/scope.cpp:285-307 | A walk misses nothing if and only if each parameter scope that it passes is entered through the body of its function or belongs to a function without an environment |
| `ClassLevel.DefaultValueMissesClass` | es2panda/binder/scope.cpp:298-302 | A class with a private name used in a default value gets a level that is one too small |
| `LexicalBinder.Scope.Find` | es2panda/binder/scope.cpp:94-147 | The loop over scope objects with its counters returns what the walk function returns |
| `LexicalBinder.Scope.FindPrivateName` | es2panda/binder/scope.cpp:285-307 | The loop over scope objects returns the declaring class and the level that the walk function returns; what the class then answers is `ClassEnvironment.ClassScope.GetPrivateProperty`; the lookup of computed keys makes the same walk |
| `LexicalBinder.Scope.EnclosingVariableScope` | es2panda/binder/scope.cpp:149-171 | The loop, from any scope, returns the innermost variable scope around it; from all but parameter scopes that is the owner |
| `LexicalBinder.Binder.SetLexical` | es2panda/binder/variable.cpp:42-79 | Capturing changes the variable once and the counter of the owner by one, and nothing else |
| `LexicalBinder.Binder.LookupReference` | es2panda/binder/binder.cpp:266-275 | One lookup on objects is one step of the specification |
| `LexicalBinder.Binder.ResolveReferences` | es2panda/binder/binder.cpp:317-344 | The lookups of the whole reference pass, on objects, are the run of the specification |
| `LexicalBinder.LocalVariable.BindLexEnvSlot` | es2panda/binder/variable.h:134-139 | Marks the variable and stores the slot |
| `ScopeTree.NextIsOwner` | es2panda/binder/scope.cpp:149-171 | Outside parameter scopes the innermost variable scope is the owner of the variables declared there |
| `MandatoryParams.TableThenOriginal` | es2panda/binder/binder.h:207-214 | The parameter list ends up as the table in order followed by the original parameters; the new names are bound in the function and its parameter scope, other bindings stay |
| `ArrowThis.ArrowSeesEnclosing` | es2panda/binder/binder.cpp:1022-1075 | An arrow that uses `this` or `new.target` finds that of its nearest enclosing ordinary function, through any depth of arrows, if and only if that function comes earlier in the list; the variable is then captured, now and after the whole list |
| `ArrowThis.LookupFindsEnclosing` | es2panda/binder/binder.cpp:1022-1075 | What a lookup of `this` or `new.target` finds, in every intermediate state of the pass; the lookup of the function object is that of `FunctionObject.LookupFindsHolder` |
| `ArrowThis.ProcessKeepsHidden` | es2panda/binder/binder.cpp:1022-1075 | Every step of the pass keeps the discipline of the hidden names: bound only in functions that are done, `this` and `new.target` only in ordinary ones |
| `ArrowThis.CapturedStays` | es2panda/binder/binder.cpp:1022-1075 | Later functions of the list do not undo a capture |
| `HiddenParams.ParamsStand` | es2panda/binder/binder.cpp:1022-1075 | After the whole pass each function of the list has its three hidden parameters, by name and in order, in front of its own |
| `HiddenParams.ArrowLooksUp` | es2panda/binder/binder.cpp:1056-1072 | An arrow looks up `this`, `new.target`, `arguments` and the function object, each only if it uses it; other functions look up nothing |
| `VisitOrder.DefaultsComeFirst` | es2panda/binder/binder.cpp:582-885 | In the list of functions of any program those in the body of a function come after it and those in its default values before it, at every depth, although a class enters its initializers and its constructor before what stands in its body |
| `VisitOrder.EntriesInOrder` | es2panda/binder/binder.cpp:582-885 | The order of the reference pass, function by function and class by class (heritage, static initializer, static blocks and fields, constructor, instance initializer, the other elements, with field values in the scope of the initializer), keeps this: no later function is in a default value of an earlier one, and no earlier one in the body of a later one |
| `VisitOrder.AroundIsListed` | es2panda/binder/binder.cpp:784-846 | Every function around a listed function is listed, when all functions are that hold anything |
| `FunctionOrder.ArrowSeesEnclosingFromBody` | es2panda/binder/binder.cpp:1022-1075 | For every program with functions and classes at any nesting: an arrow that uses `this` or `new.target` finds that of its nearest enclosing ordinary function if and only if that function is listed and its body, not one of its default values, is around the arrow |
| `FunctionOrder.EnclosingIsListed` | es2panda/binder/binder.cpp:784-846 | The nearest enclosing ordinary function of a listed arrow is listed, unless it is an initializer that the class has no need of |
| `FunctionOrder.FieldArrowSeesThis` | es2panda/binder/binder.cpp:862-885 | A class whose method comes before a field that holds an arrow: the method is in the list between the initializer and the arrow, and the arrow finds the `this` of the initializer |
| `FunctionOrder.EveryElement` | es2panda/binder/binder.cpp:582-662 | A class with every kind of element: the order of the list, function by function |
| `FunctionOrder.DefaultArrowMissesThis` | es2panda/binder/binder.cpp:1062-1067 | A function with an arrow as default value that returns `this`: the arrow finds the `this` of the top level although its enclosing function is another |
| `FunctionObject.ConstructorArrowFindsFunc` | es2panda/binder/binder.cpp:1048-1072 | An arrow that is taken for one of a derived constructor and uses `super` finds the function object of its nearest enclosing ordinary function if and only if that function comes earlier in the list and no arrow between them, earlier in the list, binds its own; that function is the constructor except for arrows in field initializers of a class inside the constructor, which the source takes for arrows of the constructor too and whose enclosing function is the initializer |
| `FunctionObject.ProcessAllBindsFunc` | es2panda/binder/binder.cpp:1048-1072 | After any part of the list exactly the functions done bind a function object, but for the arrows that use `super` in a derived constructor |
| `FunctionObject.HolderIsEnclosing` | es2panda/binder/binder.cpp:1048-1072 | The innermost function that binds a function object is the enclosing ordinary one exactly when that one binds one and no arrow between does |
| `FunctionObject.PlainArrowHidesConstructor` | es2panda/binder/binder.cpp:1048-1072 | Two nested arrows in a derived constructor of which only the inner one uses `super`: the lookup does not reach the constructor |
| `LexicalBinder.Binder.AddMandatoryParam` | es2panda/binder/binder.cpp:1003-1020 | On objects: one parameter in front, bound in the function and parameter scope |
| `LexicalBinder.Binder.AddMandatoryParams` | es2panda/binder/binder.h:207-214 | On objects: the reverse loop over a table |
| `NameInjectivity.FunctionNamesAreUnique` | es2panda/binder/scope.cpp:352-401 | Global injectivity: for every tree of scopes with names free of the marks and every binding order, two functions have the same internal name if and only if they are the same function |
| `NameInjectivity.NamesAreStable` | es2panda/binder/scope.cpp:352-401 | Names given once never change later in a run, and settled names keep their compressed form |
| `NameInjectivity.FullNamesDiffer` | es2panda/binder/scope.cpp:352-377 | Full scope names tell scopes apart |
| `NameInjectivity.FullNameDecodes` | es2panda/binder/scope.cpp:362-374 | A full name decodes uniquely into the full name of the parent, tag, own name and duplicate index |
| `NameInjectivity.InternalNameDecodes` | es2panda/binder/scope.cpp:544-560 | An internal name decodes uniquely into full name of the parent, tag, own name and duplicate index |
| `NamePaths.RunNamesArePaths` | es2panda/binder/scope.cpp:544-560 | Main theorem on the form of names: after any run the name of a function is the record, `#`, one segment for each class and function around it from the outside in, its tag, `#`, its own name, and its index among namesakes |
| `NamePaths.NamedParentIsInnermost` | es2panda/binder/scope.h:816-827 | The named parent of a class or function is the innermost class or function around the scopes that it brings, default values included, or the top scope when there is none |
| `NamePaths.PathIsAround` | es2panda/binder/scope.cpp:362-374 | The segments of a full name are those of exactly the classes and functions around the scope and of the scope itself |
| `NamePaths.PathGoesInwards` | es2panda/binder/scope.cpp:362-374 | Each further segment is of a scope further in |
| `NamePaths.FullNameIsPath` | es2panda/binder/scope.cpp:352-377 | A full name is its segments one after another: tag, own name as written, and `^` with a hexadecimal index for all namesakes but the first |
| `NamePaths.IndicesAreDense` | es2panda/binder/scope.h:406-424 | Over any run the indices of namesakes are zero, one, two and so on, without gaps |
| `NamePaths.OwnNameComesFirst` | es2panda/binder/scope.cpp:352-377 | A new long own name enters the table before those of the scopes around it |
| `NamePaths.MethodIsNamedByClass` | es2panda/binder/scope.cpp:544-560 | Method `m` of class `C` in record `r` is named `r#~C>#m` |
| `NameInjectivity.MarkedNamesCollide` | es2panda/binder/scope.cpp:544-560 | Without the condition on names it fails: a second `a` and a function keyed `a^1` share one internal name |
| `ScopeNameTheory.CodeIsStable` | es2panda/binder/scope.cpp:379-401 | Once a name was written it is always written the same way, whatever comes into the table |
| `ScopeNameTheory.CodeIsNoLonger` | es2panda/binder/scope.cpp:379-401 | Compression never lengthens a name, and shortens those in the table |
| `ScopeNameTheory.CodeIsInjective` | es2panda/binder/scope.cpp:379-401 | Distinct names have distinct codes |
| `ScopeNameTheory.TableIsBijection` | es2panda/binder/scope.cpp:379-401 | The table is a bijection onto the numbers below its size |
| `ScopeNameTheory.SetSelfKeepsOk` | es2panda/binder/scope.h:406-424 | Fixing an own name keeps the invariant; siblings of one tag and name get different duplicate indices |
| `ScopeNameTheory.SetFullKeepsOk` | es2panda/binder/scope.cpp:352-377 | Computing a full name, with all of its parents, keeps the invariant and all names given before |
| `ScopeNameTheory.BindKeepsOk` | es2panda/binder/scope.cpp:544-560 | Binding a function keeps the invariant and gives it a name |
| `Strings.HexInjective` | es2panda/binder/scope.cpp:379-401 | Hexadecimal numerals are injective |
| `Strings.HexLengthMonotone` | es2panda/binder/scope.cpp:384-386 | Larger numbers have no shorter numerals: why an index always fits where an earlier one did not |
| `Strings.HexIsNumeral` | es2panda/binder/scope.cpp:379-401 | A numeral is lower-case hexadecimal without leading zeros and stands for its number |
| `NameBinder.NameRegistry.GetParentWithScopeName` | es2panda/binder/scope.h:816-827 | The named parent; a function skips its own parameter scope |
| `NameBinder.NamedScope.CountDuplicate` | es2panda/binder/scope.h:802-811 | The counter of a key of the children: zero first, then one more |
| `NameBinder.NameRegistry.SetSelfScopeName` | es2panda/binder/scope.h:406-424 | On objects: the own name and duplicate index are set once |
| `NameBinder.NameRegistry.OptimizeSelfScopeName` | es2panda/binder/scope.cpp:379-401 | On objects: the written form, and the table entry a new long name gets |
| `NameBinder.NameRegistry.GetFullScopeName` | es2panda/binder/scope.cpp:352-377 | On objects: the lazily computed full name, with everything it sets on the way |
| `NameBinder.NameRegistry.BuildFunction` | es2panda/binder/binder.cpp:380-397 | On objects: the internal name, at the first call only |
| `TemplateTheory.ScannersAgree` | es2panda/lexer/lexer.cpp:485-556 | Whenever the cooked scan of a template element succeeds, the raw scan succeeds and stops at the same place, on every text |
| `TemplateTheory.RawStopsAtFirstBoundary` | es2panda/lexer/lexer.cpp:485-556 | The raw scan stops at position e if and only if e is the first back-tick or `${` with an even number of backslashes in front; it fails just when there is none |
| `TemplateTheory.RawIsNormalizedSlice` | es2panda/lexer/lexer.cpp:497-508 | The raw text is the source slice with CR and CR LF turned into LF, section 12.9.6 of ECMA-262 |
| `TemplateTheory.RawDeterminesCooked` | es2panda/lexer/lexer.h:214-307 | Cooking the raw text gives what cooking the source gives, the same text or an error both times |
| `TemplateTheory.RawIsFixedPoint` | es2panda/lexer/lexer.cpp:485-556 | A raw text, closed by a back-tick, scans to itself |
| `TemplateTheory.CookFailsAtBadEscape` | es2panda/lexer/lexer.cpp:566-662 | When the raw scan succeeds, the cooked scan fails if and only if an unescaped backslash before the end starts no valid escape |
| `TemplateTheory.ElementFacts` | es2panda/parser/expressionParser.cpp:862-884 | For every element whose cooked scan succeeds: agreeing end at the first boundary, normalized raw text, and a raw text that cooks to the same value |
| `TemplateTheory.HexEscapeValue` | es2panda/lexer/lexer.h:309-331 | A fixed-length escape succeeds if and only if all digits are hexadecimal, and its value is their positional value |
| `TemplateTheory.CodePointEscapeValue` | es2panda/lexer/lexer.cpp:50-83 | A braced escape has value v and length m if and only if m - 1 hexadecimal digits and a brace stand there, v is their positional value, and v is a code point |
| `TemplateTheory.CodePointEscapeIsEcma` | es2panda/lexer/lexer.cpp:50-83 | The braced escapes that are read are those of section 12.9.4 of ECMA-262, at least one digit and a value that is a code point, if and only if the braces are not empty |
| `TemplateTheory.EmptyCodePointEscape` | es2panda/lexer/lexer.cpp:55-60 | Braces without digits are accepted and read as U+0000 |
| `EscapeValues.EscapeIs` | es2panda/lexer/lexer.cpp:566-662 | What a backslash before each code point stands for, written out: the six controls, zero, the line terminators, an error for other decimal digits, and else the code point itself |
| `EscapeValues.HexEscapeIs` | es2panda/lexer/lexer.cpp:613-618 | `x` and two hexadecimal digits stand for their value, and for an error otherwise |
| `EscapeValues.UnicodeEscapeIs` | es2panda/lexer/lexer.cpp:619-623 | `u` and four hexadecimal digits stand for their value, and for an error otherwise |
| `EscapeValues.BracedEscapeIs` | es2panda/lexer/lexer.cpp:50-83 | `u` and n hexadecimal digits in braces stand for their value if and only if it is at most 0x10FFFF |
| `EscapeValues.CookIs` | es2panda/lexer/lexer.h:214-307 | The cooked scan step by step, with the code points written out: ends, line terminators, escapes, and all else unchanged |
| `EscapeValues.BoundaryIs` | es2panda/lexer/lexer.cpp:485-556 | A boundary is a back-tick or a dollar sign with a brace behind an even number of backslashes, told by their positions |
| `EscapeValues.NormalizeIs` | es2panda/lexer/lexer.cpp:497-508 | Only carriage returns change: alone or with a line feed behind they become one line feed |
| `EscapeValues.DigitsAreThese` | es2panda/lexer/lexer.h:424-429 | The decimal and hexadecimal digits and their values, by ranges of code points |
| `Scanner.Lexer.ScanHexEscape` | es2panda/lexer/lexer.h:309-331 | The loop over a fixed number of digits computes the specified escape |
| `Scanner.Lexer.ScanUnicodeCodePointEscape` | es2panda/lexer/lexer.cpp:50-83 | The loop up to the brace computes the specified escape |
| `Scanner.Lexer.ScanStringUnicodePart` | es2panda/lexer/lexer.cpp:566-662 | One escape: text, length and failure are those of the specification |
| `Scanner.Lexer.ScanString` | es2panda/lexer/lexer.h:214-307 | The cooked scan with its lazily copied stretches gives the cooked text, stops where specified and fails just when the specification does |
| `Scanner.Lexer.ScanTemplateString` | es2panda/lexer/lexer.cpp:485-556 | The raw scan gives raw text, end, stop reason, position and line count |
| `Scanner.Lexer.ScanElement` | es2panda/parser/expressionParser.cpp:862-884 | Cooked scan, rewind, raw scan: one element with agreeing end, normalized raw text and a cooked text that the raw text determines; fails just when cooking does |
| `Digits.HexValueIsPosition` | es2panda/lexer/lexer.h:424-429 | The masked value of a digit is its position among the sixteen digits, in both letter cases |
| `Digits.ValueOfSnoc` | es2panda/lexer/lexer.h:346-352 | Multiply-and-add computes the positional value |
| `Scanner.Lexer.ScanNumberRadix` | es2panda/lexer/lexer.h:334-375 | Accepts exactly digit runs joined by single separators (section 12.9.3 of ECMA-262), returns the positional value of the digits without separators, and stops at the end of the literal |
| `RadixLiteral.RadixIs` | es2panda/lexer/lexer.h:334-375 | The digits and the base of each radix, and the separator, by code points |
| `RadixLiteral.LiteralValueIs` | es2panda/lexer/lexer.h:346-352 | A separator leaves the value alone, a digit multiplies it by two, eight or sixteen and adds itself |
| `KeywordSearch.FindKeyword` | es2panda/lexer/keywordsUtil.cpp:254-288 | The binary search goes on after a hit, yet makes the token a keyword exactly once if the identifier is in a strictly sorted table, at its position, and never otherwise; all indices are in bounds |
| `KeywordSearch.LessIsTransitive` | es2panda/lexer/keywordsUtil.cpp:270-281 | String comparison orders the table |
| `KeywordSearch.LessIs` | es2panda/lexer/keywordsUtil.cpp:270-281 | The comparison is the order of the dictionary: equal up to a place where the first ends or is smaller |
| `DepsResolver.DepsRelationResolver.Resolve` | es2panda/aot/resolveDepsRelation.cpp:103-141 | Ends and returns true; the records met are exactly those reachable from the entries, a closed set; the relation is the old one with the preset pairs and every known reachable record under its program |
| `DepsResolver.DepsRelationResolver.FillRecord2ProgramMap` | es2panda/aot/resolveDepsRelation.cpp:51-71 | The map of records to programs and the preset pairs, as specified program by program |
| `DepsResolver.DepsRelationResolver.CollectCommonjsAndJsonRecords` | es2panda/aot/resolveDepsRelation.cpp:22-49 | The first deciding field decides; a special record enters the relation at its first program only |
| `DepsResolver.DepsRelationResolver.CollectDepsIfNeeded` | es2panda/aot/resolveDepsRelation.cpp:73-82 | A record met for the first time joins the set and the end of the queue |
| `DepsResolver.DepsRelationResolver.CollectStaticImportDepsRelation` | es2panda/aot/resolveDepsRelation.cpp:137-150 | All targets of the matching records are met, nothing else |
| `DepsResolver.DepsRelationResolver.CollectDynamicImportDepsRelation` | es2panda/aot/resolveDepsRelation.cpp:152-163 | All targets of the matching functions are met, nothing else |
| `DepsGraph.ClosedIsReachable` | es2panda/aot/resolveDepsRelation.cpp:108-133 | A closed set that has the entries and only reachable records is the set reachable by import chains, and is the least closed set |
| `DepsResolver.DepsRelationResolver.SearchIgnoresOrder` | es2panda/aot/resolveDepsRelation.cpp:108-112 | Two searches from the same set of entries, in whatever order and however often each is named, meet the same records and end in the same relation |
| `DepsGraph.RecordMapIsLast` | es2panda/aot/resolveDepsRelation.cpp:52-70 | A record belongs to the last program in which it takes part |
| `DepsGraph.RecordMapHasOwner` | es2panda/aot/resolveDepsRelation.cpp:52-70 | Every record of the map has such a program |
| `DepsGraph.PresetIsExact` | es2panda/aot/resolveDepsRelation.cpp:57-66 | A pair is preset if and only if its program has the record as an npm entry, or is the first program cut at that special record |
| `DepsGraph.SuccessorsInUniverse` | es2panda/aot/resolveDepsRelation.cpp:137-163 | All records that can be met come from finitely many import lists: why the search ends |
| `DepsGraph.PathStaysIn` | es2panda/aot/resolveDepsRelation.cpp:108-133 | A chain of imports from an entry never leaves a closed set that has the entries |
| `ImportTargets.TargetIs` | es2panda/aot/resolveDepsRelation.cpp:73-82 | An ohmurl of parts k, p, b, i, v, whatever follows, leads to the record `b&i&v` when it holds `@normalized:N` and the package of i is not external, and to nothing otherwise |
| `ImportTargets.ShortImport` | es2panda/util/commonUtil.cpp:80-90 | With fewer than five parts an import leads nowhere in the model |
| `ImportTargets.PlainPackage` | es2panda/util/commonUtil.cpp:53-68 | The package of an unscoped import is what stands before the first slash |
| `ImportTargets.ScopedPackage` | es2panda/util/commonUtil.cpp:53-68 | The package of an import that begins with `@` is what stands before the second slash |
| `ImportTargets.DepsAre` | es2panda/aot/resolveDepsRelation.cpp:137-163 | A record leads to the targets of the imports of the records whose key, and of the functions whose name, holds its name |
| `ImportTargets.SuccessorsAre` | es2panda/aot/resolveDepsRelation.cpp:113-163 | With distinct program keys, a record leads to exactly what the matching records and functions of the last program in which it takes part import |
| `ImportTargets.StrangerLeadsNowhere` | es2panda/aot/resolveDepsRelation.cpp:115-119 | A record that takes part in no program leads nowhere |
| `ImportTargets.MarksSpecialIs` | es2panda/aot/resolveDepsRelation.cpp:22-49 | A record is special if and only if some field says so (`jsonFileContent`, or `isCommonjs` with a positive byte) and those before it say nothing |
| `ImportTargets.OrdinaryIs` | es2panda/aot/resolveDepsRelation.cpp:51-71 | A record takes part in the search if and only if its program has no npm entries, it has fields, and neither it nor an earlier record of the program is special |
| `PrivateMembers.AcceptedIsUnique` | es2panda/parser/parserImpl.cpp:2663-2712 | The declarations the parser accepts are exactly those in which a private name repeats only as a getter and a setter that are both static or both not |
| `PrivateMembers.SlotsAreDistinct` | es2panda/binder/scope.cpp:215-245 | No two private members share a slot |
| `PrivateMembers.SlotsAreContiguous` | es2panda/binder/scope.cpp:215-245 | Every slot from the first to the end belongs to a member |
| `PrivateMembers.LookupIsTruthful` | es2panda/binder/scope.cpp:179-213 | In every class that the parser accepts, looking up a declared name, for get or set, answers the slot of the member it stands for, with truthful method, getter and setter flags and a static flag that speaks of methods only: a static private field is answered as not static, as in the code; the validation slot is no slot of a member |
| `PrivateMembers.TableHasSlot` | es2panda/binder/scope.cpp:224-244 | Among unique names each table has the slot of the member itself |
| `PrivateMembers.AwaitedPairs` | es2panda/parser/parserImpl.cpp:2695-2711 | A further member is accepted after an accepted list if and only if it pairs with every member of its name |
| `PrivateMembers.SlotsAreInOrder` | es2panda/binder/scope.cpp:215-245 | Fields come before instance methods and these before static methods, each group in order of declaration |
| `PrivateMembers.ValidationIs` | es2panda/binder/scope.cpp:179-213 | Asking for `#method` gives the slot right behind the members, and the slot for static methods comes after it |
| `ClassEnvironment.PrivatesMirror` | es2panda/ir/base/classDefinition.cpp:461-500 | Each private element gives one member with its name, kind and static flag, in order of declaration |
| `ClassEnvironment.KeysAndInitializers` | es2panda/ir/base/classDefinition.cpp:480-510 | Which fields keep a computed key and which elements need the instance initializer |
| `ClassEnvironment.KeySlotsAreDistinct` | es2panda/binder/scope.h:870-873 | Computed keys get different slots, below those of the private members |
| `ClassEnvironment.ClassScope.AddPrivateName` | es2panda/binder/scope.cpp:215-256 | From matching counts the loop lays out fields, instance methods, static methods and validation slots as specified |
| `ClassEnvironment.ClassScope.GetPrivateProperty` | es2panda/binder/scope.cpp:179-213 | The method computes the specified answer |
| `ClassEnvironment.ClassScope.BuildClassEnvironment` | es2panda/ir/base/classDefinition.cpp:461-514 | Counts what it hands to the layout, and all slots of a class follow each other: computed keys, private members, validation, initializer |
| `ClassEnvironment.ClassScope.AddClassVariable` | es2panda/binder/scope.h:870-873 | A key gets the next slot |
| `LegacyNames.LegacyNamesAreUnique` | es2panda/binder/binder.cpp:399-439 | Over any sequence of functions plain, hashed and numbered names never coincide, when the hash separates the contents and no name begins with the mark |
| `LegacyNames.HashedTextDecodes` | es2panda/binder/binder.cpp:413-436 | A hashed name decodes into hash, repeat number and shown name |
| `LegacyNames.MarkedNameCollides` | es2panda/binder/binder.cpp:403-411 | A name that spells a hashed name is given out twice |
| `LegacyNames.TextIs` | es2panda/binder/binder.cpp:413-436 | The three forms of a name: plain, `#hash#name`, and `#hash_number#name` for repeats |
| `LegacyNames.PlainIsFirst` | es2panda/binder/binder.cpp:399-411 | A function keeps its plain name if and only if it is the first of that name and the name is not empty and holds neither a dot nor a backslash |
| `LegacyNames.RepeatIsCount` | es2panda/binder/binder.cpp:413-430 | The number in a hashed name counts the earlier hashed functions with the same source and name |
| `LegacyNames.LegacyBinder.LegacyBuildFunction` | es2panda/binder/binder.cpp:399-439 | The method takes one step of the specification |
| `StatementSplice.StatementList.UpdateForMultipleTransformedStatements` | es2panda/ir/statement.cpp:19-43 | The list edited under its iterator becomes the concatenation of the answers; each original statement is asked about once, in order, and no inserted one |
| `StatementSplice.ReplacementStands` | es2panda/ir/statement.cpp:19-43 | Where the answer for each statement stands in the result |
| `StatementSplice.KeepingAllIsIdentity` | es2panda/ir/statement.cpp:24-25 | Answering every statement with itself changes nothing |
| `StatementSplice.FlatMapConcat` | es2panda/ir/statement.cpp:19-43 | The result of two lists after one another is the two results after one another |
| `StatementSplice.OneAnswer` | es2panda/ir/statement.cpp:24-40 | A single answer leaves its node, nothing, or its nodes in their order |

## Left out

- Operands of operator chains are opaque leaves or parenthesised expressions: unary, member, call and arrow syntax, assignment, `yield`, commas, `as` and `satisfies`, TypeScript speculation and the flags of the expression parser (such as stopping at `in`) are not modelled.
- Source ranges of nodes and the positions in error messages: an error is only the fact that there is one.
- Stack-overflow guards.
- ExpressionParser.Parser.ParseBinaryExpression: does not model the start positions that the walk updates on the nodes it passes.
- `LexicalBinder.Scope` and `NameBinder.NamedScope` are the addressing half and the naming half of the one scope class of the source; fields that neither half reads are absent.
- The pass over the list of functions that adds hidden parameters is proved on values (`ArrowThis`); on objects only its steps are (`LexicalBinder.Binder.AddMandatoryParam`, `LexicalBinder.Binder.AddMandatoryParams`, `LexicalBinder.Binder.LookupReference`). Aliasing between the parameter lists during the whole pass is not captured.
- LexicalBinder.Binder.ResolveReferences: `arguments` is looked up like other names, but the binding that the pass creates on its first use is taken as given, and the classes that it enters are events of `BindingRun`, on values; the commonjs parameter table is not used.
- VisitOrder.EntriesInOrder: TypeScript programs are taken after their transformation, when class fields with values have been moved into the constructor; type parameters, index signatures and namespaces hold no functions in the model.
- TableAgreement.ParserAgreesWithEcma: compares trees; what ECMA-262 refuses by early errors is compared in `NullishRule` for `??` and `**` only.
- Sendable classes and environments, patch and hot-reload slots, TypeScript module and enum scopes, interface bindings, re-parenting of parameter scopes while references are resolved, and the names kept for debug information.
- LexicalBinder.Scope.FindPrivateName: gives the class and the level; the property answer of that class is that of `ClassEnvironment.ClassScope.GetPrivateProperty`. The source has no answer when no class declares the name; the model answers that there is none.
- NameInjectivity.FunctionNamesAreUnique: the condition, that no name holds a mark, is sufficient and not necessary; a program with marks in names may still have unique names. Why some condition is needed is shown by `MarkedNamesCollide`.
- LegacyNames.LegacyNamesAreUnique: likewise the conditions on names and hash are sufficient and not necessary.
- Declaration of names, redeclaration errors and the flags for the temporal dead zone: bindings are given.
- The source marks a full scope name as set before it computes it; the model marks it afterwards, which makes no difference because a scope is never its own ancestor.
- Which tag and node name a scope has is given with the scope tree; only tags from the source's set are allowed.
- Numbers are unbounded: 32-bit counters, the conversion of literals to floating point, and the integer type of the table of names do not wrap or round here.
- Text is a sequence of code points: decoding UTF-8 and storing escaped surrogates are not modelled; identifier tables of Unicode are not either.
- Scanner.Lexer.ScanString: only the back-tick form; the two quote forms, tagged templates, and the line counter during the cooked scan, which the rewind restores, are left out.
- Scanner.Lexer.ScanElement: one element; the expressions between elements, brace depth and the white space skipped behind `${` are left out.
- Scanner.Lexer.ScanNumberRadix: the prefix, the big-integer suffix and the check of what follows the literal are left out.
- KeywordSearch.FindKeyword: what the token becomes after a hit is left out, and so is the generated switch for identifiers without escapes.
- Decimal literals, punctuators, regular expressions.
- DepsResolver.DepsRelationResolver.CollectStaticImportDepsRelation: the imports of a record are given with it; reading them from literal arrays and bytecode is not modelled.
- An import that carries the tag of a collected ohmurl but has fewer than five parts leads nowhere in the model; the source reads past its end.
- The printed report of the resolver.
- ClassEnvironment.ClassScope.BuildClassEnvironment: the flags for computed keys, private elements and static initializers are left out, as they only select later code.
- The hash of the older naming scheme is a given map; its collisions and the check of special names for hot fixes are outside.
- Options, file handling, emit queues, bytecode generation, the type checker and the scripts of the repository.
