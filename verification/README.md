# Catnip verification models

Dafny models of the parts of Catnip whose correctness is not visible from any one
function, with proofs of what those parts promise. `dafny verify dfyconfig.toml`
checks everything. Paths below are relative to the root of the Catnip repository.

| Files | What they model |
|---|---|
| `Syntax`, `LexicalScopes`, `ScopeAgreement`, `Rename`, `Constructs` | Scope resolution, find-references and rename of the language server, over a syntax tree whose nodes are addressed by path. The upward and the downward walk are modelled as the loops they are, proved equal to functions, and then related to each other, to renaming, and to the constructs of the language. |
| `Bits`, `NanBox`, `Arith`, `Words`, `Ledger` | The NaN-boxed words, the number tower (small integers, heap integers, floats as opaque doubles) over what the accessors reveal of a word, what a word and a heap denote, and the reference counts and ledger of heap integers. |
| `Utf8`, `Columns` | UTF-8 (sections 3 and 4 of RFC 3629), and the conversion between byte columns and the columns of the language server protocol (LSP 3.17, PositionEncodingKind; RFC 2781, section 2.1). |
| `FlatBuffer`, `CharBuffer`, `Editor`, `History` | The line editor of the REPL as a class over a vector of lines, refined against one text with one cursor, whose edits are then stated in the characters on either side of the cursor; the command history, its file, and browsing it. |
| `DebugSession` | The two threads and two channels of a debug session as a step relation with timeouts at any empty receive. |
| `Freeze` | Freezing values to a nominal form and thawing them into a registry whose types may list their fields in another order. |
| `Policy`, `Hints` | Module policy matching, and the backward parenthesis scan of call hints. |

`Wrappers` holds a few definitions that they share.

Methods and classes have the form of the source where the source updates in place;
each is proved equal to a specification function, and the lemmas are about those
functions.

## Where the code departs from what one would expect

The models follow the code. In these places it does not do what its documentation
says, or what a caller might assume; a theorem says exactly when.

- Rename keeps the meaning of a program if and only if the new name captures
  nothing (`Rename.NoCapture`); the server does not check this before it edits. A
  name that occurs nowhere is always safe.
- A `for` statement owns every occurrence in its header whose name it binds, although
  the iterable is evaluated outside. In `x = None; for x in f(x) {}` a rename of the
  first `x` leaves the argument behind; it reaches the header if and only if the loop
  does not bind the name (`Rename.LoopTakesItsNames`).
- `is_binding_occurrence` is documented to accept the loop variable of a `for`. It
  accepts every identifier directly under the statement, so the loop also binds the
  name of a bare iterable (`Rename.ForIterableIsLocalToTheLoop`).
- A struct method opens no scope, so its parameters belong to the scope that the struct
  is declared in. In `x = None; struct P { m(x) }` a rename of the first `x` takes the
  parameter along (`Constructs.RenameTakesMethodParameter`).
- Every identifier in a position that the server does not list counts as a variable
  (`Constructs.VariablesAreTheOtherIdentifiers`).
- `numeric_floordiv` boxes with an unchecked constructor. The one quotient that does
  not fit, that of the smallest small integer by -1, reads back as the smallest small
  integer (`Arith.FloorDivIsExact`).
- The comparisons refuse a heap integer with a float, and `eq_scalar` leaves that
  equality to its caller; all other mixes follow one order.
- Exactly the quiet NaNs, of either sign, are replaced by the canonical one; other
  NaNs keep their bits (`NanBox.FloatReadsBack`).
- `encode_column` is documented to clamp an offset past the end of the line, or inside
  a character, to the line end. In UTF-16 units it falls back to the start of the
  character instead; in UTF-8 units it clamps neither
  (`Columns.EncodeMeetsDocumentation`).
- A history entry that starts with `#V2` is dropped when the file is loaded, because
  it looks like a file header. An entry that ends in a carriage return, which a file
  can bring in but pushing cannot, loses it when it is saved and loaded again.
- When the pipeline of a debug session cannot be built, the error event is sent but
  never received: `start` gives up waiting for the breakpoint handle first. A program
  that does not compile is reported, as the first event.
- After one timeout in a debug session, every later call that returns an event returns
  one older than the reaction to its own command. The server drops a session when a
  call on it times out (catnip_mcp/src/tools/debug.rs:77-124), so that there only the
  timeout of the machine itself, waiting for a command, shifts the answers
  (`DebugSession.ServerCallGetsItsOwnAnswer`).
- A line break typed as a character, which callers avoid, gives the right text but
  leaves the break inside a line (`Editor.InputState.InsertChar`).
- The argument index of a call hint counts bracket kinds alike. Once a bracket of any
  kind closes the call, commas after as many brackets opened again are still counted
  (`Hints.ArgIndexCountsOwnCommas`).
- A frozenset thaws as a set. One that is used as a key or an element cannot be
  hashed any more, so the whole object thaws to nil.
- Shipped struct types are registered first come, while a registry finds the latest
  definition of a name. A value that reaches a struct whose type was redefined with
  other fields therefore never arrives at a worker as it was
  (`Freeze.ShippedValueArrives`).
- History browsing gives the draft back with the cursor at its end, wherever it was
  (`Editor.CursorComesBack`).

## Model

| member | source | states |
|---|---|---|
| LexicalScopes.WalkEnclosingScope | catnip_lsp/src/symbols.rs:73-81 | The parent loop finds the scope that the recursive specification names, or none |
| ScopeAgreement.EnclosingScopeIsNearest | catnip_lsp/src/symbols.rs:73-81 | A node is the enclosing scope exactly when it is a scope, a proper ancestor, and no scope lies between |
| LexicalScopes.WalkIsBindingOccurrence | catnip_lsp/src/symbols.rs:88-113 | The upward loop through unpack wrappers decides whether an identifier binds its name |
| LexicalScopes.WalkUntilScope | catnip_lsp/src/symbols.rs:118-144 | The pruned downward visit finds a binder of the name exactly when the specification does, on top of what was found already |
| ScopeAgreement.ScopeBindsExactly | catnip_lsp/src/symbols.rs:115-144 | A scope binds a name if and only if some binding occurrence of it has that scope as its nearest enclosing one |
| LexicalScopes.WalkBindingScope | catnip_lsp/src/symbols.rs:149-158 | Trying the enclosing scopes in turn, with the root as fallback, gives the owner of the name |
| ScopeAgreement.BindingScopeIsNearest | catnip_lsp/src/symbols.rs:149-158 | Among the scopes that can own the name, it is the one with no rebinding scope between it and the occurrence |
| LexicalScopes.CollectRefs | catnip_lsp/src/symbols.rs:163-191 | The recursive loop appends to the list exactly the references of the specification, in order |
| ScopeAgreement.CollectedExactly | catnip_lsp/src/symbols.rs:163-191 | An occurrence is collected below a scope if and only if it is a variable of that name there and no scope on the way rebinds it |
| LexicalScopes.FindReferencesAt | catnip_lsp/src/symbols.rs:229-257 | From an identifier, the owner is found, the scope itself and everything below it collected, and a non-variable position refused |
| ScopeAgreement.ReferencesAreTheVariable | catnip_lsp/src/symbols.rs:149-257 | The upward and downward walks agree: find-references succeeds at every variable, and lists in document order and once each precisely the variable occurrences that resolve to the same scope |
| ScopeAgreement.ReferencesPartition | catnip_lsp/src/symbols.rs:229-257 | Starting from any found reference gives the same list; two starting points of one name give equal or disjoint lists |
| Rename.BinderIsOccurrence | catnip_lsp/src/symbols.rs:50-113 | No identifier is both a binding occurrence and in a non-variable position, so a rename reaches every binder |
| Rename.OnlyTheChosenScopeChanges | catnip_lsp/src/symbols.rs:118-191 | After a rename the chosen scope binds the new name in place of the old, and every other scope binds what it did |
| Rename.NewNameResolves | catnip_lsp/src/symbols.rs:149-191 | Where the new name resolves at any node of the renamed tree: to the chosen scope if the node is inside and nothing nearer had the name, else as before |
| Rename.RenameIsAlphaConversion | catnip_lsp/src/server.rs:179-213 | The renamed tree has its variables at the same places, with the same owners and merged or split nowhere, if and only if the name is unchanged or captures nothing |
| Rename.RenameCanCapture | catnip_lsp/src/server.rs:179-213 | In the tree of `a = None; b = None`, renaming `a` to `b` does not preserve meaning |
| Rename.FreshNameIsSafe | catnip_lsp/src/server.rs:179-213 | Renaming to a name that no identifier carries is always meaning-preserving |
| Rename.RenameBack | catnip_lsp/src/server.rs:179-213 | A safe rename followed by renaming the same occurrence back restores the tree |
| Rename.LoopTakesItsNames | catnip_lsp/src/symbols.rs:20-158 | An occurrence anywhere in a `for` statement that nothing nearer rebinds belongs to the loop if the loop binds its name, and otherwise to the owner of the name outside; a rename of the outer variable reaches it if and only if the loop does not bind the name |
| Rename.ForIterableIsLocalToTheLoop | catnip_lsp/src/symbols.rs:82-113 | Every identifier directly under a `for`, a bare iterable too, is bound by the loop, so no rename from outside reaches it |
| Rename.RenameMissesIterable | catnip_lsp/src/symbols.rs:82-113 | In the tree of `a = None; for i in a {}`, renaming the first `a` leaves the second one |
| Rename.RenameMissesArgument | catnip_lsp/src/symbols.rs:118-158 | In the tree of `x = None; for x in f(x) {}`, renaming the first `x` leaves the argument of the call |
| Constructs.FiveConstructsOpenScopes | catnip_lsp/src/symbols.rs:20-25 | Files, blocks, lambdas and the two loops are scopes for what is directly in them; every other node hands on to its parent |
| Constructs.BindingOccurrences | catnip_lsp/src/symbols.rs:83-113 | An identifier is a binding occurrence if and only if it is, directly or through unpacking alone, in an assignment target or a `for`, or in the name field of a parameter or a `with` binding or the binding field of an `except` clause |
| Constructs.BinderKeepsName | catnip_lsp/src/symbols.rs:83-191 | The nearest scope around a binder owns every occurrence of the name in it that nothing nearer rebinds, and no rename that starts outside reaches them |
| Constructs.LambdaOwnsParameter | catnip_lsp/src/symbols.rs:103-104 | That scope is the lambda for an identifier in the name field of one of its parameters |
| Constructs.MethodSharesParameter | catnip_lsp/src/symbols.rs:103-104 | For a parameter of a struct method it is the scope around the method |
| Constructs.TargetBelongsToScope | catnip_lsp/src/symbols.rs:92-101 | For an assignment target, alone or unpacked, it is the nearest scope around the target |
| Constructs.ExceptBindingBelongsToScope | catnip_lsp/src/symbols.rs:107-108 | So it is for the binding of an `except` clause |
| Constructs.WithNameBelongsToScope | catnip_lsp/src/symbols.rs:109-110 | So it is for a name of a `with` |
| Constructs.LoopOwnsTarget | catnip_lsp/src/symbols.rs:105-106 | For a target of a `for`, alone or unpacked, it is the loop |
| Constructs.VariablesAreTheOtherIdentifiers | catnip_lsp/src/symbols.rs:56-70 | An identifier below the root is no variable if and only if it is a member name, a keyword key, or the declared name of a struct, trait, enum or method |
| Constructs.OtherNamesAreUntouched | catnip_lsp/src/symbols.rs:229-257 | No rename starts at such an identifier, and none touches it |
| Constructs.ShadowedNameStaysApart | catnip_lsp/src/symbols.rs:361-384 | In the tree of `x = None; (x) => { x }; x`, renaming the outer `x` reaches the last one and neither the parameter nor its use; renaming the parameter reaches its use and neither of the others |
| Constructs.RenameTakesMethodParameter | catnip_lsp/src/symbols.rs:83-113 | In the tree of `x = None; struct P { m(x) }`, renaming the first `x` renames the parameter |
| NanBox.EveryWordHasOneClass | catnip_core/src/scalar.rs:111-143 | For all 64-bit words: each predicate tests one class of a partition, so they are disjoint, and the boundary constructor admits exactly floats and the four scalar tags |
| NanBox.ClassOfTagged | catnip_core/src/nanbox.rs:67-100 | A word built from a tag and a payload satisfies its own predicate only, gives the payload back, and is refused at the boundary exactly for handles |
| NanBox.IntReadsBack | catnip_core/src/scalar.rs:146-196 | Boxing any i64 and reading it back keeps its low 47 bits sign-extended; it is the identity exactly on the small-integer range |
| NanBox.FloatReadsBack | catnip_core/src/scalar.rs:162-217 | Every double boxes to a float; exactly the quiet NaNs, of either sign and any payload, become CANON_NAN, which is a NaN and not quiet, and all other doubles read back bit for bit |
| NanBox.BoolReadsBack | catnip_core/src/scalar.rs:171-222 | Booleans read back and have the class of their tag |
| NanBox.SymbolReadsBack | catnip_core/src/scalar.rs:180-227 | Symbol indices of 32 bits read back and have the class of their tag |
| NanBox.HandleReadsBack | catnip_core/src/scalar.rs:230-238 | A 47-bit address boxes to a heap integer, reads back, and never enters through the boundary constructor |
| Arith.RingIsExact | catnip_core/src/arith.rs:227-329 | For every mix of representations that the accessors reveal, the three operations give the integer they should, boxed inline exactly when it fits 47 bits |
| Arith.SumsAndProductsAreExact | catnip_core/src/arith.rs:227-329 | `numeric_add`, `numeric_sub` and `numeric_mul` give the canonical box of a + b, of a - b and of a * b |
| Arith.RingOnOtherKinds | catnip_core/src/arith.rs:227-329 | With an operand that is no integer: complex wins over float, float over integers of both kinds, and anything that is no number is a type error |
| Arith.DivisionOnOtherKinds | catnip_core/src/arith.rs:355-421 | `//` and `%` with a float: a float for floats and small integers, an error on a zero divisor of either kind, a type error for a heap integer or any other kind |
| Arith.NegIsExact | catnip_core/src/arith.rs:475-500 | Negation is exact and canonical, the smallest small integer included |
| Arith.NegOnOtherKinds | catnip_core/src/arith.rs:475-500 | Floats negate to floats, complex numbers to complex ones, and anything else is a type error |
| Arith.PowIsExact | catnip_core/src/arith.rs:424-468 | Powers are exact and canonical for exponents below 2^32 in a small integer, and floats otherwise |
| Arith.PowAdds | catnip_core/src/arith.rs:424-468 | The power of those results is the repeated product: x to the 0 is 1, to the 1 is x, and exponents add |
| Arith.PowOnOtherKinds | catnip_core/src/arith.rs:424-468 | Powers with an operand that is no integer: complex wins over float, and anything that is no number is a type error |
| Arith.I64FormsAgree | catnip_core/src/arith.rs:62-73 | Truncating division with the xor sign test equals floor division and its remainder |
| Arith.FloorDivLaw | catnip_core/src/arith.rs:57-73 | The floor quotient is the floor of the exact real quotient, and leaves a remainder with the sign of the divisor |
| Arith.DivModLaw | catnip_core/src/arith.rs:62-73 | q * b + r == a, with r of the sign of b and smaller than it |
| Arith.QuotientRange | catnip_core/src/arith.rs:62-73 | Of all pairs of small integers, only the smallest by -1 has a quotient out of range; remainders always fit |
| Arith.FloorDivIsExact | catnip_core/src/arith.rs:355-421 | On every integer mix `//` and `%` are exact and canonical and refuse only a zero divisor, except for that one pair, which reads back as the smallest small integer |
| Arith.OperateIsExact | catnip_core/src/arith.rs:152-468 | Every operation on integers in any mix of representations: exact and canonical, a division by zero, an inexact power, or the one overflowing quotient |
| Arith.BoxedMeaningIsExact | catnip_core/src/arith.rs:355-386 | Where the smallest small integer is nowhere divided by -1, the machine arrives at the value of an expression over the integers, and at none exactly where there is none |
| Arith.MeaningOfNodes | catnip_core/src/arith.rs:152-500 | That value in the arithmetic of the integers, operation by operation: sum, difference, product, power, floor of the real quotient, remainder, opposite |
| Arith.ComparisonIsOneOrder | catnip_core/src/arith.rs:507-608 | `<`, `<=`, `>`, `>=` and equality are those of the real numbers on all integer mixes and finite floats, save that a heap integer and a float are not comparable |
| Arith.DoublesCompare | catnip_core/src/arith.rs:507-608 | The same for all doubles beside a double or a small integer: the infinities are at the ends, and every comparison with a NaN is false, equality with itself included |
| Arith.OtherKindsCompare | catnip_core/src/arith.rs:507-608 | Nil equals nil alone, booleans equal themselves, complex numbers compare by parts with numbers, the rest is left to the caller; only numbers that are not complex are ordered |
| Words.WordsCompute | catnip_core/src/arith.rs:152-468 | On any two words that denote integers, each of `+`, `-`, `*`, `//`, `%` and `**` gives a word and a heap that denote the exact result: inline if and only if it fits 47 bits, otherwise one new heap integer with one reference, everything else untouched; with the errors, the inexact powers, and the one quotient that overflows |
| Words.WordsAddUp | catnip_core/src/arith.rs:227-329 | The words of a + b, of a - b and of a * b come out of the three operations on words that denote a and b |
| Words.WordsNegate | catnip_core/src/arith.rs:475-500 | The same for negation |
| Words.WordsCompare | catnip_core/src/arith.rs:507-608 | `<`, `<=`, `>`, `>=` and equality of words that denote integers are those of the integers |
| Words.CanonicalWord | catnip_core/src/scalar.rs:189-248 | Boxing gives the one word of an integer, and it decodes to that integer |
| Words.UncheckedBoxing | catnip_core/src/scalar.rs:189-196 | Boxing without a range check gives the word of the low 47 bits, sign-extended |
| Words.BoxedDouble | catnip_core/src/scalar.rs:209-217 | Boxing keeps the number that a double stands for, NaNs included |
| Words.DoublesAreSpaced | catnip_core/src/scalar.rs:209-217 | What a double stands for: doubles of one exponent are evenly spaced, the next exponent goes on where they end with twice the spacing (the same after the subnormal ones), and negative doubles mirror positive ones |
| Words.ZeroAndOne | catnip_core/src/scalar.rs:209-217 | They start at zero, and the double of exponent 1023 without a fraction is one |
| Words.WordsReadAsBoxed | catnip_core/src/scalar.rs:111-227 | Booleans, symbols and handles read as what was boxed, the nil words alone as nil, and exactly the words that are none of these, nor floats or integers, as other values |
| Words.SmallIntIsDouble | catnip_core/src/arith.rs:74-91 | Every small integer is a double, so its conversion is exact |
| Words.Compute | catnip_core/src/arith.rs:152-500 | An expression of all six operations and negation, of any size, evaluated word by word with its operands released: the word that the machine arrives at, one new heap integer if it does not fit 47 bits, and nothing else in the heap or the free addresses |
| Words.ComputeIsExact | catnip_core/src/arith.rs:152-500 | Without an overflowing quotient that word is the one of the exact value, and the count of heap integers grows by one or by none accordingly |
| Ledger.BigIntHeap.FromBigInt | catnip_core/src/scalar.rs:230-238 | Boxing on the heap adds one integer with one reference at an unused address and one to the ledger |
| Ledger.BigIntHeap.Binary | catnip_core/src/arith.rs:152-468 | Arithmetic borrows its operands, allocates once when the result is a heap integer and otherwise not at all, and touches no other integer |
| Ledger.BigIntHeap.Negate | catnip_core/src/arith.rs:475-500 | Negation borrows its operand, with the same account of allocation |
| Ledger.BigIntHeap.CloneRef | catnip_rs/src/vm/value.rs:1236-1241 | A second reference to a heap integer leaves the ledger as it is |
| Ledger.BigIntHeap.CloneInteger | catnip_core/src/scalar.rs:41-45 | Cloning the integer itself makes a second one of the same value, and adds one to the ledger |
| Ledger.BigIntHeap.Decref | catnip_core/src/scalar.rs:287-296 | Giving up a reference lowers the ledger exactly when it is the last one |
| Ledger.BigIntHeap.Coerce | catnip_core/src/arith.rs:631-681 | Which values each declared type accepts and what each becomes; a finite conversion of a heap integer releases exactly one reference, and every refusal releases none |
| Ledger.ConvertedValues | catnip_core/src/arith.rs:631-681 | A declared type takes exactly the values it has a conversion for; what comes out is of that type, stays as it is when coerced again, and equals the integer or float it came from, but for heap integers that become floats; true is one and false zero |
| Ledger.Perform | catnip_core/src/arith.rs:152-681 | What every command adds to the values held, or takes from them, and that the invariant is kept |
| Ledger.ReleaseKeepsCount | catnip_core/src/scalar.rs:287-296 | Releasing keeps the invariant that the ledger counts the heap integers and each has as many references as the program holds |
| Ledger.Lifecycle | catnip_core/src/scalar.rs:9-51 | Any sequence of boxing, arithmetic, negation, cloning of references and of integers, coercing and dropping, followed by dropping the rest, leaves no heap integer live |
| Ledger.Evaluate | catnip_core/src/arith.rs:152-500 | An expression of all six operations and negation evaluates to the value the machine arrives at in canonical form, whatever its intermediate results overflow to; the ledger grows by one for a heap result, and by none otherwise and when an operation fails or leaves the integers |
| Columns.RunEncodeColumn | catnip_lsp/src/encoding.rs:46-67 | The boundary-walking loop computes the specified column |
| Columns.RunDecodeColumn | catnip_lsp/src/encoding.rs:73-88 | Decoding clamps in UTF-8 units and walks the characters in UTF-16 units |
| Columns.RunDecodeUnits | catnip_lsp/src/encoding.rs:76-87 | The loop over characters stops at the specified byte offset |
| Columns.ColumnsAreAdjoint | catnip_lsp/src/encoding.rs:46-88 | At every boundary, encoding reaches c if and only if the boundary is at or after the decoding of c, exactly when c is within the line or the boundary is not its end |
| Columns.ByteColumnRoundTrip | catnip_lsp/src/encoding.rs:46-88 | Encoding then decoding a byte column gives the greatest boundary up to it and the line length |
| Columns.ClientColumnRoundTrip | catnip_lsp/src/encoding.rs:46-88 | Decoding then encoding gives c when a character starts there, c + 1 inside a surrogate pair, and the line total past the end |
| Columns.UnitsOfText | catnip_lsp/src/encoding.rs:46-67 | The units counted from lead bytes are those of the encoded characters |
| Columns.Utf8ColumnRoundTrip | catnip_lsp/src/encoding.rs:46-75 | In UTF-8 units a byte column comes back clamped to the line |
| Columns.EncodeMeetsDocumentation | catnip_lsp/src/encoding.rs:43-67 | `encode_column` gives the documented column if and only if the offset is a character boundary of the line, or past its end in UTF-16 units |
| Columns.Utf8EndsAtEnd | catnip_lsp/src/encoding.rs:43-49 | In UTF-8 units an offset is clamped to the line if and only if it is within it |
| Columns.Utf16EndsAtEnd | catnip_lsp/src/encoding.rs:50-65 | In UTF-16 units an offset has the column of the line end if and only if it is at or past the end |
| Columns.ClampFails | catnip_lsp/src/encoding.rs:43-67 | A line, an offset inside its character and one past its end, for which the documented column is missed |
| Editor.PrevCharBoundary | catnip_repl/src/input.rs:295-304 | The previous character boundary |
| Editor.NextCharBoundary | catnip_repl/src/input.rs:306-315 | The next character boundary |
| Editor.InputState.InsertChar | catnip_repl/src/input.rs:57-61 | Typing any character pastes it into the text at the cursor; the state stays valid, and is that of the flat paste, exactly when the character is no line break |
| Editor.InputState.DeleteCharBefore | catnip_repl/src/input.rs:63-77 | Backspace removes the character before the cursor of the flat text, a line break included, and does nothing at its start |
| Editor.InputState.DeleteCharAt | catnip_repl/src/input.rs:79-90 | Delete removes the character after the cursor, a line break included, and does nothing at the end |
| Editor.InputState.MoveCursorLeft | catnip_repl/src/input.rs:94-102 | One character back in the flat text |
| Editor.InputState.MoveCursorRight | catnip_repl/src/input.rs:104-113 | One character forward in the flat text |
| Editor.InputState.MoveCursorWordLeft | catnip_repl/src/input.rs:123-141 | To the start of the word before the cursor in its line, or over the line break before it |
| Editor.InputState.MoveCursorWordRight | catnip_repl/src/input.rs:143-162 | To the word after the cursor in its line, or over the line break after it |
| Editor.InputState.ClearCurrentLine | catnip_repl/src/input.rs:167-170 | Removes the bytes between the line breaks around the cursor |
| Editor.InputState.DeleteWord | catnip_repl/src/input.rs:173-191 | Removes back to the start of the word in the line |
| Editor.InputState.NewLineWithIndent | catnip_repl/src/input.rs:199-208 | Pastes a line break and the indent |
| Editor.InputState.Clear | catnip_repl/src/input.rs:211-216 | Everything is as at the start, the browsing state included |
| Editor.InputState.PerformAll | catnip_repl/src/input.rs:57-208 | Any sequence of edits, line breaks being typed as new lines, runs as on the flat text, and keeps the cursor on a character boundary of an existing row |
| Editor.TextIsOk | catnip_repl/src/input.rs:47-49 | In every valid state the text is well-formed UTF-8 with the cursor between two characters |
| Editor.AbstractionIsFaithful | catnip_repl/src/input.rs:7-16 | Text and offset determine lines and cursor, so nothing is lost in the flat view |
| Editor.JoinThenSplit | catnip_repl/src/input.rs:47-49 | Splitting the full text at line breaks gives the lines back |
| Editor.SplitThenJoin | catnip_repl/src/input.rs:249-256 | An entry split into lines has its text as full text |
| FlatBuffer.LeftAndRightAreInverse | catnip_repl/src/input.rs:94-113 | Away from the ends, left and right undo each other |
| FlatBuffer.BackspaceUndoesTyping | catnip_repl/src/input.rs:57-77 | Typing any character and deleting it backwards changes nothing |
| FlatBuffer.DeleteForwardIsRightThenBackspace | catnip_repl/src/input.rs:63-90 | Deleting forwards is stepping over a character and deleting it backwards |
| FlatBuffer.WordStartExactly | catnip_repl/src/input.rs:123-141 | The word motion stops at the only place where white space, then a word, runs up to the cursor |
| FlatBuffer.NextWordExactly | catnip_repl/src/input.rs:143-162 | Forwards it stops at the only place past the rest of the word and the white space after it |
| Utf8.BoundaryAfterAscii | catnip_repl/src/input.rs:123-162 | A byte-wise scan for ASCII white space stops on character boundaries |
| Utf8.DecodeEncoded | catnip_repl/src/input.rs:57-61 | Every string is well-formed when encoded and decodes to itself, so encoding is injective |
| Utf8.EncodeDecoded | catnip_repl/src/input.rs:57-61 | Every well-formed byte string is the encoding of what it decodes to, so each is the encoding of exactly one string |
| Utf8.BoundaryExactly | catnip_repl/src/input.rs:295-315 | A position in a well-formed text is a character boundary if and only if the text can be cut there in two well-formed ones |
| Utf8.OneCharacter | catnip_repl/src/input.rs:295-315 | Between two neighbouring boundaries there is exactly one character |
| CharBuffer.InsertShows | catnip_repl/src/input.rs:57-61 | A typed character appears to the left of the cursor, and nothing else changes |
| CharBuffer.NewLineShows | catnip_repl/src/input.rs:194-208 | A new line puts a line break and as many spaces as the indent there |
| CharBuffer.LeftAndBackspaceShow | catnip_repl/src/input.rs:63-102 | Left carries the last character of the left side over to the right side, backspace takes it away, and neither does anything at the start |
| CharBuffer.RightAndDeleteShow | catnip_repl/src/input.rs:79-113 | Right carries the first character of the right side over to the left side, delete takes it away, and neither does anything at the end |
| CharBuffer.HomeShows | catnip_repl/src/input.rs:115-117 | Home passes characters without a line break and stops at the start of the text or after one |
| CharBuffer.EndShows | catnip_repl/src/input.rs:119-121 | End passes characters without a line break and stops at the end of the text or before one |
| CharBuffer.ClearLineShows | catnip_repl/src/input.rs:167-170 | Clearing a line leaves what is to the left of its start and to the right of its end |
| CharBuffer.WordLeftShows | catnip_repl/src/input.rs:123-141 | Within a line the word motion passes a run without white space and then white space up to the cursor, and stops at the start of the line or after white space |
| CharBuffer.DeleteWordShows | catnip_repl/src/input.rs:173-191 | Within a line, deleting a word leaves what is to the left of where the word motion goes and to the right of the cursor |
| CharBuffer.DeleteWordAtLineStart | catnip_repl/src/input.rs:173-191 | At the start of a line it does nothing, where the word motion goes to the line before |
| CharBuffer.WordRightShows | catnip_repl/src/input.rs:143-162 | Forwards it passes a run without white space and then white space within the line, and stops at the end of the line or before a character of a word |
| Editor.InputState.HistoryUp | catnip_repl/src/input.rs:235-258 | Up saves the draft when browsing starts, then shows the next older entry, and stops at the oldest |
| Editor.InputState.HistoryDown | catnip_repl/src/input.rs:261-284 | Down shows the next later entry, and the draft after the latest |
| Editor.UpsShowEntries | catnip_repl/src/input.rs:235-258 | After k Ups the entry at recency min(k, length) - 1 is shown and the draft is kept |
| Editor.BrowsingRestoresDraft | catnip_repl/src/input.rs:235-284 | k Ups then k Downs, past the oldest entry too, give the draft back with the cursor at its end, showing the entry at its index at every step between |
| Editor.DownsReachDraft | catnip_repl/src/input.rs:261-284 | From an index past the entries, too, every Down goes one place and leaves the lines alone until there is an entry, and the draft comes back |
| Editor.CursorComesBack | catnip_repl/src/input.rs:235-284 | After as many Downs as Ups the cursor is where it was if and only if that was the end of the draft |
| History.History.Load | catnip_repl/src/history.rs:18-40 | Whatever the file holds, the bound is kept and no entry is empty, looks like a header or has a separator left; no file gives no entries; the file of a history kept by pushes gives it back unless an entry looks like a header |
| History.History.Push | catnip_repl/src/history.rs:53-66 | The new entry is the latest and every other one a place older, up to the bound; a blank entry and a repetition change nothing; the bound, the clean entries and the absence of adjacent repetition are kept |
| History.History.Get | catnip_repl/src/history.rs:69-75 | The entry at a recency index, 0 for the one remembered last |
| History.RememberedRecency | catnip_repl/src/history.rs:53-75 | The same law of recency for the function that it is proved against |
| History.CleanedExactly | catnip_repl/src/history.rs:53-66 | What is stored of an entry: the separator removed and nothing else inside, and the white space at both ends trimmed and nothing more |
| History.LatestAreKept | catnip_repl/src/history.rs:53-111 | After any pushes a history with a bound holds the last entries of the one without, as many as the bound allows |
| History.OldestIsDropped | catnip_repl/src/history.rs:106-111 | Of four pushes on a history of three the first is gone |
| History.LatestLinesAreLoaded | catnip_repl/src/history.rs:18-40 | Loading keeps the last entries of the file, as many as the bound allows |
| History.PushedAll | catnip_repl/src/history.rs:53-66 | Any history built by pushes stays within its bound and has no two equal neighbours |
| History.ReloadExactly | catnip_repl/src/history.rs:18-50 | Any entries that pushing or loading can leave survive saving and loading if and only if none starts with the old header or ends in a carriage return |
| History.SaveThenLoad | catnip_repl/src/history.rs:18-50 | A saved history loads back unchanged, multi-line entries included, if and only if no entry starts with the old header |
| History.HeaderEntryIsLost | catnip_repl/src/history.rs:18-50 | The entry `#V2` is such an entry, and is lost |
| History.ReturnIsLost | catnip_repl/src/history.rs:18-50 | A file whose line loads to an entry that ends in a carriage return, which the next reload loses |
| History.SearchIsExact | catnip_repl/src/history.rs:93-104 | A search lists in increasing recency exactly the entries that contain the query |
| DebugSession.InvHolds | catnip_mcp/src/debug_session.rs:43-179 | In every run: the channels lose and reorder nothing, terminal events are last, and pauses, commands, calls and timeouts balance |
| DebugSession.ReceivedIsPrefix | catnip_mcp/src/debug_session.rs:164-184 | Received events are a prefix of sent ones, and the last pause reported is the last one received |
| DebugSession.LastPausedExactly | catnip_mcp/src/debug_session.rs:164-184 | That last pause is the one after which no other pause comes, or none where there was none |
| DebugSession.NothingAfterTheEnd | catnip_mcp/src/debug_session.rs:164-179 | After a terminal event no later call returns an event |
| DebugSession.CallsTimeOutWithNothingSent | catnip_mcp/src/debug_session.rs:118-179 | In every run, a call can get an event if and only if one was sent that was not received, and can time out if and only if there is none; so it is for the first event |
| DebugSession.MachineTimesOutWithNothingIssued | catnip_mcp/src/debug_session.rs:43-71 | The same for the machine and the commands issued |
| DebugSession.SendFailsOnceGone | catnip_mcp/src/debug_session.rs:164-179 | Sending a command fails if and only if the machine is gone |
| DebugSession.SetupErrorIsLost | catnip_mcp/src/debug_session.rs:86-161 | In a run whose pipeline could not be built, no event is ever received |
| DebugSession.SetupCanFail | catnip_mcp/src/debug_session.rs:95-101 | A run in which the pipeline cannot be built: the error is sent, nothing is received |
| DebugSession.CompileErrorIsReceived | catnip_mcp/src/debug_session.rs:118-141 | A run in which the program does not compile, and `start` returns the error as the first event |
| DebugSession.FinishTellsTheOutcome | catnip_mcp/src/debug_session.rs:118-141 | In every run, the event that ends the program tells whether it ran to its end |
| DebugSession.ProgramFinishes | catnip_mcp/src/debug_session.rs:43-141 | A run without timeouts that pauses, takes a command, and receives that the program finished |
| DebugSession.CallGetsItsOwnAnswer | catnip_mcp/src/debug_session.rs:43-179 | Every call that returns an event returns the reaction to its own command if and only if nothing timed out before, in a call or in the machine, and an older event otherwise, also when its command is never taken |
| DebugSession.AnswersComeInOrder | catnip_mcp/src/debug_session.rs:43-179 | In a run without timeouts, every call whose command was sent and that has returned gave an event, and the k-th command is answered by the (k+1)-th event |
| DebugSession.AnswersCanShift | catnip_mcp/src/debug_session.rs:43-70 | A run in which no call times out, but the machine does, and the first call returns a pause from before its command was taken |
| DebugSession.ServerCallGetsItsOwnAnswer | catnip_mcp/src/tools/debug.rs:77-124 | Where a call that times out ends the session, a call returns the reaction to its own command if and only if the machine had not timed out before it took the command |
| DebugSession.OneTurnAtATime | catnip_mcp/src/debug_session.rs:43-179 | Without timeouts, exactly one of machine running, event queued, handler's turn and command queued holds until the terminal event is received or the session closed |
| Freeze.PyRoundTrip | catnip_rs/src/freeze.rs:24-105 | Every freezable object of distinct hashable keys and elements comes back with frozensets as sets, or not at all exactly when a frozenset is used as a key or an element |
| Freeze.FrozenSetKeyIsLost | catnip_rs/src/freeze.rs:24-105 | A dict with a frozenset for a key freezes but does not thaw |
| Freeze.FreezesExactly | catnip_rs/src/freeze.rs:24-65 | A Python object can be frozen if and only if there is, at any depth, no object of another type in it and no integer beyond 64 bits |
| Freeze.FrozenKinds | catnip_rs/src/freeze.rs:24-65 | Every kind of object freezes to its own kind with its items in order, but for frozensets, which freeze as sets |
| Freeze.LaterItemWins | catnip_rs/src/freeze.rs:67-105 | Setting an item of a dict last gives every key equal to its own the new value, and leaves such a key there |
| Freeze.MeltedFreezesAlike | catnip_rs/src/freeze.rs:24-105 | What comes back freezes to the same frozen value |
| Freeze.FreezeRepresents | catnip_rs/src/freeze.rs:112-154 | A frozen value is the nominal form of the value: type by name, fields by name, at every depth |
| Freeze.ValueFreezesExactly | catnip_rs/src/freeze.rs:112-154 | A value can be frozen if and only if every struct it reaches has its instance and its type, and nothing else in it is opaque or an object that cannot be frozen |
| Freeze.UnboxedFreezesAlike | catnip_rs/src/freeze.rs:112-132 | Unboxing a Python object changes nothing about freezing it, but for the integers beyond 47 bits, which no word holds inline and which then cannot be frozen |
| Freeze.StructRegistry.StructToFrozen | catnip_rs/src/freeze.rs:134-154 | The loop that pushes the named fields freezes all or nothing |
| Freeze.StructRegistry.StructFromFrozen | catnip_rs/src/freeze.rs:183-208 | The loop that fills the positional fields thaws to the specified registry and value |
| Freeze.ThawRepresents | catnip_rs/src/freeze.rs:157-208 | A thawed value stands for the frozen one, in every later registry too, if and only if the registry knows its types with the same fields; no instance that was there changes |
| Freeze.OtherSlotsStayNil | catnip_rs/src/freeze.rs:183-208 | A field of the type that the frozen value does not name is nil after thawing |
| Freeze.FreedSlotIsReused | catnip_rs/src/freeze.rs:183-208 | A new instance takes the slot freed last, or a new one when none is free |
| Freeze.FreezeThenThaw | catnip_rs/src/freeze.rs:112-208 | A value and its image in another registry stand for one nominal value, at any nesting depth and in any field order, exactly when that registry can take it |
| Freeze.AgreeByName | catnip_rs/src/freeze.rs:177-208 | Two values of one nominal form have the same type name and field names and agree field by name |
| Freeze.FrozenIsThawable | catnip_rs/src/freeze.rs:112-208 | A registry can take a frozen value if and only if it knows the type of every struct the value reaches, up to field order, and no frozenset in it is a key or an element |
| Freeze.KnownTypesSuffice | catnip_rs/src/freeze.rs:112-208 | A registry that knows all types can take every value of fitting integers and proper objects |
| Freeze.RegisteredKeeps | catnip_rs/src/freeze.rs:289-336 | Registering shipped types adds those missing and redefines none |
| Freeze.RegisterIsIdempotent | catnip_rs/src/freeze.rs:289-336 | Registering again changes nothing |
| Freeze.StructRegistry.RegisterTypes | catnip_rs/src/freeze.rs:289-336 | The loop over the shipped definitions registers as specified |
| Freeze.FirstDefinitionWins | catnip_rs/src/freeze.rs:289-336 | Of several shipped definitions of one name, a worker keeps the first |
| Freeze.ShippedValueArrives | catnip_rs/src/freeze.rs:236-336 | A value sent together with all types of its registry arrives as the same nominal value if and only if, at every depth, each struct is of a type with the fields of the first definition of its name, and no frozenset is a key or an element |
| Freeze.RedefinedPointLosesField | catnip_rs/src/freeze.rs:183-336 | A registry, an instance of a redefined type in it, and the value without its second field that a worker makes of it |
| Policy.Check | catnip_core/src/policy.rs:73-88 | Deny rules win, then allow rules, then the default |
| Policy.RuleIsComponentPrefix | catnip_core/src/policy.rs:25-38 | A plain rule matches exactly the modules whose dotted components start with its own, a wildcard rule exactly those with more components besides |
| Policy.ComponentsMakeTheName | catnip_core/src/policy.rs:25-38 | Components have no dot in them and make the name with dots between |
| Policy.MatchesWhatItCovers | catnip_core/src/policy.rs:25-38 | A rule that ends in `.*` matches what has more components than the rest of it, any other rule what has its components at least |
| Policy.AcceptsByComponents | catnip_core/src/policy.rs:73-88 | A policy accepts a module if and only if no deny rule covers it by its components, and an allow rule does or the default is to allow |
| Policy.SubmodulesAreCovered | catnip_core/src/policy.rs:30-38 | What matches a module matches its submodules |
| Policy.DeniedSubmodules | catnip_core/src/policy.rs:73-88 | No submodule of a module that a deny rule covers is accepted |
| Policy.OrderDoesNotMatter | catnip_core/src/policy.rs:55-88 | Permuting the rules changes no answer |
| Policy.CreatedPolicyAnswersAlike | catnip_core/src/policy.rs:55-88 | Only the two actions are accepted, and a created policy answers as the unsorted rules do |
| Policy.SortedInOrder | catnip_core/src/policy.rs:55-70 | The rules of a created policy are in order |
| Policy.RulesAreMonotone | catnip_core/src/policy.rs:73-88 | Adding deny rules accepts nothing more, adding allow rules refuses nothing more |
| Hints.FindOpenParen | catnip_repl/src/hints.rs:111-148 | The backward loop with one counter finds what the specification finds |
| Hints.ScanFindsTopOfStack | catnip_repl/src/hints.rs:111-148 | For every text, the parenthesis found is on top of the stack of a forward parse, and none is found exactly when that stack is empty |
| Hints.CountCommas | catnip_repl/src/hints.rs:252-264 | The loop counts the commas with no net bracket before them |
| Hints.ArgIndexCountsOwnCommas | catnip_repl/src/hints.rs:132-134 | The argument index counts exactly the commas whose innermost open bracket is the call's, if and only if every comma it counts comes before a bracket closes the call |
| Hints.CommasAreOwnOrStray | catnip_repl/src/hints.rs:252-264 | In all cases it counts the call's own commas and the stray ones after it was closed |
| Hints.BracketedCommasDoNotCount | catnip_repl/src/hints.rs:252-264 | What stands in a pair of parentheses, square brackets or braces after balanced text adds no comma to the count, and leaves the text balanced |
| Hints.StrayCommaIsCounted | catnip_repl/src/hints.rs:252-264 | In `(][,` one comma is counted that is not the call's |
| Hints.ScannedCallIsStillOpen | catnip_repl/src/hints.rs:115-134 | After the parenthesis found, if only parentheses nest, nothing closes it, so that the index is right |

## Left out

- Parsing, the lookup of a node at a position, and parsing again after a rename: the models start from a tree and an identifier in it, and a rename replaces the text of leaves.
- Floating-point and complex results: a result of that kind is opaque, and the rounding of a heap integer to a double is not modelled.
- Ledger.BigIntHeap.Coerce: which double a heap integer converts to, and whether that is finite, are parameters.
- Ledger.BigIntHeap.Binary: true division is not an operation, because its result is never an integer; it allocates none.
- Words.WordsCompute: tags that a virtual machine adds for its own heap values, complex numbers among them, are read as other values.
- Bitwise operators, and memory exhaustion in arithmetic and powers.
- Raw pointers, `Arc` internals and threads of the number tower: heap integers have abstract addresses with counts.
- The raw setters `lines_mut`, `set_cursor_row` and `set_cursor_col` of the editor, which bypass its invariant.
- Editor.InputState.PerformAll: a line break typed with `insert_char` is not among the edits, because lines and text no longer correspond after it; key and paste handling type it as a new line (catnip_repl/src/app.rs:693-716).
- Unicode lower-casing in `History.Search` is a parameter; files, directories and I/O errors are not modelled.
- Clock time in the debug session: any receive on an empty channel may time out. `eval_expr`, source maps and breakpoints are not modelled.
- Freeze.FreezeThenThaw: structs are nested to a finite depth given as a parameter, because the source recurses without end on a cycle of structs.
- Freeze.PyRoundTrip: sets and dicts keep their elements in one iteration order, and equality of keys is a parameter.
- Serialized bytes, captures, and of struct types their defaults, checks and methods, with the gates of `collect_frozen_struct_types` on them and on inheritance, which make the caller fall back before anything is shipped; `frozen_has_struct`.
- Policy.CreatedPolicyAnswersAlike: sorting is any function that permutes, written as an insertion sort; the policy hash and the summary are not modelled.
- The function name and the signature tables of hints, and i32 overflow of their bracket counters.
- The virtual machine, the compiler, the language server around these functions, terminal rendering and the command line.
