# Models and proofs for the grammar compiler and its neighbours

This project models, in Dafny, the parts of the repository whose behaviour is hardest to see from one
function, and proves what they promise.

- **GBNF grammars.** `Gbnf` gives the expressions of the notation (literals, character sets, references,
  groups, alternatives, repetitions with bounds) and the texts they describe; `GrammarTable` gives the flat
  table of rules the same kind of meaning. `GbnfReader` says what a source text says, and `GbnfCharacters` what its
  characters, escapes, blanks and comments are; the imperative
  scanners and the parser (`GbnfScanner`, `GbnfTerminals`, `GbnfParser`) are proved against it, and the table
  the parser leaves behind is proved to describe, name by name, the same texts (`Lowering`, `ParseStore`,
  `ParseSteps`). `ParseTrace` follows in which order the parser numbers symbols and which names its rules
  refer to, and `UndefinedNames` says from the source alone when it is accepted. `Repetition` holds what the
  rewriting of repetitions promises, `GbnfPrinter` the consumer that must never find a malformed rule.
- **Written grammars.** `GbnfSyntax` and `GbnfSpelling` say how expressions are put together to a text, and
  prove that the text is read back; `GbnfWriting` that what is read back, and the table it is compiled to,
  mean what is meant. With `GbnfRendering` every expression has such a text, and with `GbnfImage` whatever
  the reader reads can be written again.
- **JSON schemas to grammars.** Integers within bounds (`Numerals`, `IntegerBounds`, `IntegerMinimum`,
  `IntegerRules`), repetitions with a separator (`Separated`, and in `RefusedRules` those that cannot be read),
  keys that are none of those listed (`KeyExclusion`, the trie
  in `KeyTrie`, and their text in `KeySpelling` and `KeyRules`), the rules for characters and space
  (`StringRules`), the naming of rules (`SchemaRules`) and the rule for an object (`ObjectMembers`,
  `ObjectRules`, `ObjectBuilder`, and the texts of objects in `JsonTexts`), over `Meaning`, the meaning of expressions at any depth of references.
  `KeyRules` and `CompiledRules` go through both stages, from what is generated to the table of the parser.
- **N-gram caches and drafting.** `NgramCounts`, `NgramCache`, `NgramFile`, `NgramDraft`.
- **Low-rank tensors.** `Tensors`, `LoraTensors`, `LoraOperations`, `LoraJoining`, and the permutation of
  attention heads in `HeadPermutation`.
- **Smaller pieces.** Merge recovery of byte-pair encoding (`BpeMerges`), gathering of expert tensors
  (`ExpertTensors`), the filler of training rows (`TrainingRows`) and base64 (`Base64`).

`dafny verify dfyconfig.toml` checks everything.

## Findings

Where the code departs from what it is for. Each departure is stated as an exact condition on the input.

- **"-0".** A range of integers around zero also accepts "-0" (`IntegerBounds.SignedBetweenExact`,
  `CompiledRules.CompileBetween`).
- **The bound -2147483647.** Its negation is the mark for an absent bound, which inner calls read as such. Beside
  a maximum this minimum is lost: two bounds in order are respected if and only if the minimum is not this number
  (`IntegerRules.BuildTwoSided`), and between it and 5 "-9999999999" is accepted. As the only bound it is refused
  as no bound at all (`IntegerRules.BuildMinMaxInt`, `LeastBoundFails`). The Python twin marks absence by `None`
  and has no such input.
- **A minimum above the maximum.** Nothing should be accepted. This is so just when both bounds agree in sign and
  in all digits but the last (`IntegerRules.BuildTwoSided`, `IntegerBounds.AppendNumbers`).
- **Inner 0 of a minimum.** A lower bound alone is respected just when no digit strictly inside it is 0
  (`IntegerMinimum.TopLevelSound`); 105 lets 15 in (`AcceptsLess`).
- **Inner 1 of a minimum.** It leaves no larger number out just when none of those digits is 1
  (`IntegerMinimum.Completeness`); 211 keeps 2000 out (`RejectsMore`).
- **Negative maximum.** Such a bound is respected just when, in addition, its digits begin with a 1 that is not
  the only one, because below the top level leading zeros are let in (`IntegerMinimum.BelowTopLevelSound`).
- **Undefined names.** A grammar that refers to a name it does not define is accepted just when no rule
  of the table refers to such a name, and no symbol that has a rule is numbered after one that has none; both
  are decided by the source (`UndefinedNames.DefinedExactly`, `GbnfParser.Parse`). So `b{0}` in the last place
  is accepted, and is not before a group (`UnusedName`).
- **Inverted bounds.** In grammars, an upper bound of a repetition below its lower one is raised to it
  (`Repetition.BoundsFaithful`).
- **A dot printed.** The printer closes a bracket after an element for any character. In the text of a rule the
  brackets match if and only if no such element stands by itself, that is, not after a set or another one
  (`GbnfPrinter.BracketsClosed`).
- **`[]`.** An empty character set is dropped instead of matching nothing (`Repetition.ClassFaithful`).
- **Characters of keys.** Key exclusion writes the characters of keys into sets without escaping them. A set is
  read as one of just these characters, or of the ranges that a dash makes of its neighbours, if and only if they
  are ASCII without NUL, `]` and the backslash, and no `^` stands alone (`KeySpelling.SingleExact`,
  `OthersExact`). For all the keys together this is `Spellable`, a condition on the listed keys that holds if
  and only if the text is well written (`NotStringsWritten`).
- **Dashes in keys.** A dash among the characters that may come next makes a range of its neighbours. The plain
  keys that are let in are those that are meant to be if and only if every plain character in such a
  range may itself come next (`KeyRules.DashHarmless`). With "a-t" and "as" listed, the set `[^"-s]` holds a
  range and the key "aA" is kept out (`KeyRules.DashFails`).
- **Prefixes of keys.** Key exclusion also keeps out the non-empty proper prefixes of a listed key
  (`KeyExclusion.PlainKeysExact`).
- **Lost backslash escape.** It loses the keys that leave the listed ones with an escape whose remainder is not
  a string itself (`KeyExclusion.WrittenKeysExact`, `EscapeLost`).
- **The empty key alone.** With just the empty key listed, just the empty key is let in
  (`KeyExclusion.EmptyKeyAlone`).
- **maxItems 0.** A separated repetition with a maximum of zero is written with an upper bound of -1, which the
  grammar reader refuses (`RefusedRules.MinusOneRefused`): every grammar with the rule for such an array
  is turned into the empty state (`RefusedRules.ParseArrayOfNone`).
- **A property named "*".** The name marks the additional members. Where these are not let in, a listed property
  may be repeated if and only if it is named "*" and is optional (`ObjectBuilder.RepeatedMembers`).
- **Low-rank tensors.** Slicing one of more than two axes fits together again just under the condition in
  `LoraOperations.SliceCommutes`; picking one element of its first axis may raise although the product has one
  (`PickCommutes`).

## Model

| member | source | states |
|---|---|---|
| `GbnfParser.Parse` | common/grammar-parser.cpp:339-394 | halts on every source; one that reads as definitions yields, if and only if no undefined name is noticed in it, a table that for every defined name describes exactly the texts of the last definition of that name, with symbol ids numbered without gaps or clashes and all rules defined; anything else yields the empty state |
| `GbnfParser.ParseState.GetSymbolId` | common/grammar-parser.cpp:27-31 | a known name keeps its id, a new one gets the next; numbering and all other rules stay as they are |
| `GbnfParser.ParseState.GenerateSymbolId` | common/grammar-parser.cpp:33-37 | the name is the base, an underscore and the number; it was not in use, so a new id is numbered and nothing else changes |
| `GbnfParser.ParseState.AddRule` | common/grammar-parser.cpp:39-47 | exactly one slot is filled, the table grows as far as needed and no other rule changes |
| `GbnfParser.ParseState.HandleRepetitions` | common/grammar-parser.cpp:156-207 | what was before the repeated symbol is kept, and in its place come the copies and synthesized rules that realize the bounds; earlier rules keep their meaning |
| `GbnfParser.ParseState.AddOptionals` | common/grammar-parser.cpp:189-203 | the chain or the one self-recursive rule that stands for the optional copies |
| `GbnfParser.ParseState.ParseItem` | common/grammar-parser.cpp:209-272 | one literal, set, reference, group or any character is read as it is written, and its elements are appended |
| `GbnfParser.ParseState.ParseGroup` | common/grammar-parser.cpp:257-268 | a group becomes one reference to a fresh rule that represents its body |
| `GbnfParser.ParseState.ParseSequence` | common/grammar-parser.cpp:147-319 | the elements appended represent the sequence that is read, or the same error is found |
| `GbnfParser.ParseState.ParseAlternates` | common/grammar-parser.cpp:321-337 | the rule stored represents all the alternatives that are read, with its one end mark last |
| `GbnfParser.ParseState.ParseRule` | common/grammar-parser.cpp:339-361 | the store represents one definition more |
| `GbnfParser.ParseState.ParseRules` | common/grammar-parser.cpp:365-369 | the store represents all definitions of the source, or the same error is found |
| `GbnfParser.ParseState.Validate` | common/grammar-parser.cpp:370-388 | accepts exactly the tables in which every rule, and every rule referred to, is defined |
| `GbnfParser.ParseRuleEnd` | common/grammar-parser.cpp:353-360 | a definition ends at a line break or at the end of the text |
| `GbnfScanner.ParseSpace` | common/grammar-parser.cpp:80-93 | skips exactly blanks, comments and, where allowed, line breaks |
| `GbnfScanner.ParseName` | common/grammar-parser.cpp:95-104 | the longest run of word characters, or an error if there is none |
| `GbnfScanner.ParseInt` | common/grammar-parser.cpp:106-115 | the longest run of digits, or an error if there is none |
| `GbnfScanner.ParseHex` | common/grammar-parser.cpp:57-78 | the value of exactly as many hexadecimal digits as asked for, or an error |
| `GbnfScanner.DecodeUtf8` | common/grammar-parser.cpp:12-25 | the code point of a lead byte and its continuation, never past the end of the text; which code point it is, is in `GbnfCharacters.Utf8Char` |
| `GbnfScanner.ParseChar` | common/grammar-parser.cpp:117-138 | escapes and plain characters as the notation defines them, and each error |
| `GbnfTerminals.ParseLiteral` | common/grammar-parser.cpp:210-221 | one character element for each character of the literal |
| `GbnfTerminals.ParseClass` | common/grammar-parser.cpp:222-250 | the elements of the set that is read, ranges and negation included |
| `GbnfTerminals.ParseBounds` | common/grammar-parser.cpp:282-313 | the bounds that are read, or the same error |
| `GbnfTerminals.RepeatPrevious` | common/grammar-parser.cpp:179-187 | as many copies of the last symbol as the lower bound asks for |
| `GbnfCharacters.Utf8Char` | common/grammar-parser.cpp:12-25 | every code point but NUL and the backslash, written in one to four bytes by section 3 of RFC 3629, is read as itself wherever it stands |
| `GbnfCharacters.Utf8Literal` | common/grammar-parser.cpp:210-221 | so is every literal of such characters, without quotes |
| `GbnfCharacters.Utf8Range` | common/grammar-parser.cpp:222-250 | and every range of a set whose ends are written so |
| `GbnfCharacters.ShortEscape` | common/grammar-parser.cpp:124-131 | the seven escapes of one letter are read as their codes |
| `GbnfCharacters.LongEscape` | common/grammar-parser.cpp:121-123 | two, four or eight hexadecimal digits are read as their code |
| `GbnfCharacters.OtherEscape` | common/grammar-parser.cpp:132-133 | nothing else may follow a backslash |
| `GbnfCharacters.HexDigits` | common/grammar-parser.cpp:57-78 | the digits are the sixteen, in small or capital letters, each with its value |
| `GbnfCharacters.HexWhen` | common/grammar-parser.cpp:57-78 | a code is read if and only if all its digits are there |
| `GbnfCharacters.SpaceEnds` | common/grammar-parser.cpp:80-93 | space ends at the first place that is no blank, no line break where these may be, and not in a comment |
| `GbnfCharacters.RuleEnds` | common/grammar-parser.cpp:353-360 | a definition ends just at a line break or the end of the text, with the space after it |
| `GbnfCharacters.WordChars` | common/grammar-parser.cpp:49-55 | names are made of letters, digits and dashes |
| `GbnfCharacters.ExactBounds` | common/grammar-parser.cpp:282-313 | a number alone between braces is both bounds |
| `Lowering.Sound` | common/grammar-parser.cpp:147-337 | whatever the elements of a compiled expression derive, the expression describes |
| `Lowering.Complete` | common/grammar-parser.cpp:147-337 | whatever an expression describes, its compiled elements derive |
| `Lowering.SameLanguages` | common/grammar-parser.cpp:147-337 | a table that represents a grammar describes, for each of its names, the same texts |
| `Lowering.SensibleAsWritten` | common/grammar-parser.cpp:189-206 | an expression is compiled as it is written exactly when no set is empty and no bounds are the wrong way round |
| `Lowering.RepeatsFold` | common/grammar-parser.cpp:164-177 | what the copies and the synthesized rules derive is a number of copies within the bounds |
| `Lowering.RepeatsUnfold` | common/grammar-parser.cpp:164-177 | every number of copies within the bounds is derived |
| `ParseStore.LoweredKept` | common/grammar-parser.cpp:33-47 | what represents an expression still does after symbols and rules are added |
| `ParseStore.FreshName` | common/grammar-parser.cpp:33-37 | a generated name cannot be in use, because an underscore is no word character |
| `ParseSteps.Implemented` | common/grammar-parser.cpp:363-389 | a store that represents the definitions implements the grammar of the last definition of each name |
| `ParseTrace.NameTracked` | common/grammar-parser.cpp:27-31 | a name that is looked up is numbered when it is the first time, after all that were numbered before |
| `ParseTrace.RuleTracked` | common/grammar-parser.cpp:39-47 | a rule for a synthesized symbol adds just the names it refers to to those that such rules refer to |
| `ParseTrace.DirectNames` | common/grammar-parser.cpp:147-337 | the elements of an expression refer to just the names that the expression refers to outside groups and outside repetitions with a lower bound of zero |
| `UndefinedNames.DefinedExactly` | common/grammar-parser.cpp:370-388 | the table leaves nothing undefined if and only if the last definitions and all synthesized rules refer to defined names only, and no symbol with a rule is numbered after one without |
| `UndefinedNames.ClosedAcceptable` | common/grammar-parser.cpp:370-388 | a source in which all names are defined is accepted |
| `UndefinedNames.UnusedName` | common/grammar-parser.cpp:370-388 | an undefined name that is repeated zero times goes unnoticed at the end of a source, and is noticed before a group |
| `Repetition.BoundsFaithful` | common/grammar-parser.cpp:164-206 | compiled bounds mean what is documented if and only if they are not inverted |
| `Repetition.ClassFaithful` | common/grammar-parser.cpp:222-250 | a compiled set means what is documented if and only if it is not empty |
| `Repetition.ChainUnambiguous` | common/grammar-parser.cpp:156-207 | a bounded repetition derives each number of copies up to its bound in exactly one way |
| `Repetition.StarUnambiguous` | common/grammar-parser.cpp:156-207 | an unbounded repetition derives every number of copies in exactly one way |
| `GbnfPrinter.PrintRule` | common/grammar-parser.cpp:448-512 | prints exactly the well-formed rules, element by element |
| `GbnfPrinter.ParsedPrintable` | common/grammar-parser.cpp:448-512 | every rule of an accepted table is well-formed |
| `GbnfPrinter.BracketsClosed` | common/grammar-parser.cpp:499-508 | in what is printed the brackets match if and only if no element for any character stands by itself |
| `GbnfPrinter.InvertIds` | common/grammar-parser.cpp:516-519 | each id gets the one name that has it |
| `GbnfPrinter.PrintGrammar` | common/grammar-parser.cpp:514-529 | a grammar that was accepted is always printed: the lines of all its rules in order, with the names of their symbols |
| `GbnfSyntax.ReadsItem` | common/grammar-parser.cpp:209-272 | wherever the text of a literal, set, reference or group stands, just that item is read, up to the space after it |
| `GbnfSyntax.ReadsSequence` | common/grammar-parser.cpp:147-319 | the text of a sequence leads the reader over it with its items, marks included, put after what was read before |
| `GbnfSyntax.ReadsAlternates` | common/grammar-parser.cpp:321-337 | the text of alternatives, nested to any depth, is read as those alternatives |
| `GbnfSpelling.EscapedChar` | common/grammar-parser.cpp:117-138 | every 32-bit code, spelled by eight hexadecimal digits, is read as itself |
| `GbnfSpelling.GoodLiteral` | common/grammar-parser.cpp:210-221 | a literal of characters that are well spelled is read as that literal in all places |
| `GbnfSpelling.GoodSet` | common/grammar-parser.cpp:222-250 | a set whose parts are well spelled, with a dash only first or last, is read as that set in all places |
| `GbnfSpelling.GoodBounds` | common/grammar-parser.cpp:282-313 | any bounds, written in decimal, are read as those bounds in all places |
| `GbnfWriting.AlternatesAlike` | common/grammar-parser.cpp:147-337 | what is read back describes what is meant, in every grammar and at every depth of unfolding |
| `GbnfWriting.ReadSame` | common/grammar-parser.cpp:147-337 | it refers to the same names, and has empty sets and inverted bounds only if what is meant has |
| `GbnfWriting.FormatGrammar` | common/json-schema-to-grammar.cpp:1029-1035 | the text of the rules, each on a line of its own |
| `GbnfWriting.GrammarReadBack` | common/json-schema-to-grammar.cpp:1029-1035 | a written grammar is read to its end as its rules, none more and none less |
| `GbnfWriting.AlikeLanguages` | common/grammar-parser.cpp:363-394 | exchanging every rule for one that describes the same changes no language |
| `GbnfWriting.WrittenLanguages` | common/grammar-parser.cpp:363-394 | a table accepted for a written grammar denotes, name by name, the languages that are meant |
| `GbnfWriting.CompileRules` | common/grammar-parser.cpp:363-394 | a written grammar in which every name is defined is accepted |
| `GbnfRendering.RenderedReadBack` | common/grammar-parser.cpp:147-337 | every expression of 32-bit characters and word names has a text that is read to its end as an expression of the same meaning at every depth, with the same names |
| `GbnfRendering.CompileDefinitions` | common/grammar-parser.cpp:363-394 | every closed grammar of such expressions has a text that the parser turns into a table denoting exactly its languages |
| `GbnfImage.CharSpelled` | common/grammar-parser.cpp:117-138 | every character that is read fits in 32 bits |
| `GbnfImage.RulesRendered` | common/grammar-parser.cpp:339-369 | whatever is read is among the expressions that have such a text |
| `GbnfImage.Normalized` | common/grammar-parser.cpp:339-369 | every source that is read can be written again, and what is then read has the same languages |
| `Numerals.OrderByValue` | common/json-schema-to-grammar.cpp:114-119 | for numerals of equal length the textual order is the numeric one |
| `Numerals.CanonicalUnique` | common/json-schema-to-grammar.cpp:185-186 | a number has exactly one numeral without leading zeros |
| `IntegerBounds.UniformRange` | common/json-schema-to-grammar.cpp:114-168 | accepts exactly the numerals of the length of the bounds that lie between them; with the bounds exchanged, nothing just when they agree in all digits but the last |
| `IntegerBounds.DifferingRange` | common/json-schema-to-grammar.cpp:123-167 | the same from the first difference on |
| `IntegerBounds.SplitFirst` | common/json-schema-to-grammar.cpp:141-156 | the part of the range before the last first digit, and when it is the whole |
| `IntegerBounds.AppendNumbers` | common/json-schema-to-grammar.cpp:185-196 | length by length, exactly the canonical numerals between two bounds from zero on; with the bounds exchanged, something unless they agree in sign and all digits but the last |
| `IntegerBounds.SignedBetweenExact` | common/json-schema-to-grammar.cpp:170-197 | those are the numerals of the integers between the bounds, with "-0" the only other one, when the range is mixed |
| `IntegerBounds.NumeralIs` | common/json-schema-to-grammar.cpp:183-184 | such a numeral is decimal digits without leading zeros, after a minus sign if it is negative |
| `IntegerMinimum.TopLevelSound` | common/json-schema-to-grammar.cpp:226-247 | all accepted texts are numerals from the bound on if and only if no inner digit of it is 0 |
| `IntegerMinimum.Completeness` | common/json-schema-to-grammar.cpp:226-247 | all those numbers, up to the number of digits, are accepted if and only if no inner digit is 1 |
| `IntegerMinimum.BelowTopLevelSound` | common/json-schema-to-grammar.cpp:207-247 | below the top level the bound is respected if and only if it also begins with a 1 that has digits after it |
| `IntegerMinimum.AcceptsLess` | common/json-schema-to-grammar.cpp:239-239 | the digits 1 0 c as a lower bound let 1 c in |
| `IntegerMinimum.RejectsMore` | common/json-schema-to-grammar.cpp:231-245 | the digits 2 1 c as a lower bound keep 2000 out |
| `IntegerRules.BuildTwoSided` | common/json-schema-to-grammar.cpp:170-197 | accepts exactly the signed numerals between the bounds, and negative zero, if and only if the minimum is not -2147483647; for exchanged bounds accepts nothing if and only if they agree in sign and all digits but the last; and what is accepted where the minimum is lost |
| `IntegerRules.BuildMinimum` | common/json-schema-to-grammar.cpp:201-248 | a lower bound alone, of either sign: what is guaranteed at and below the top level, or the exact set, and the error for -2147483647 |
| `IntegerRules.BuildMaximum` | common/json-schema-to-grammar.cpp:251-265 | an upper bound alone, of either sign: the exact set, or exactly when it is respected and complete |
| `IntegerRules.BuildMinMaxInt` | common/json-schema-to-grammar.cpp:86-268 | all cases of bounds, with INT_MIN and INT_MAX read as absent in every call: the error if and only if no bound is left, and otherwise what the case promises |
| `IntegerRules.LostAround` | common/json-schema-to-grammar.cpp:177-181 | with the minimum lost, "-9999999999" is accepted, whatever the maximum from zero on |
| `IntegerRules.LeastBoundFails` | common/json-schema-to-grammar.cpp:177-206 | between -2147483647 and 5 "-9999999999" is accepted, and -2147483647 alone counts as no bound |
| `IntegerRules.BuildInteger` | common/json-schema-to-grammar.cpp:990-1005 | the rule for a type with bounds: top level, sixteen digits |
| `IntegerBounds.SameEverywhere` | common/json-schema-to-grammar.cpp:86-268 | an expression without references accepts the same texts in every grammar |
| `CompiledRules.StandaloneCompiled` | common/json-schema-to-grammar.cpp:86-268 | in a table, a rule without references denotes what its expression accepts by itself |
| `CompiledRules.CompileStandalone` | common/json-schema-to-grammar.cpp:86-268 | the table made from the text of such an expression denotes what it accepts |
| `CompiledRules.CompileUtf8` | common/grammar-parser.cpp:12-25 | both stages: the table made from a literal written in UTF-8 denotes just its text |
| `CompiledRules.CompileBetween` | common/json-schema-to-grammar.cpp:170-197 | both stages: the table for two bounds denotes exactly the numerals between them, and "-0" around zero, if and only if the bounds are kept |
| `Separated.RepetitionWritten` | common/json-schema-to-grammar.cpp:19-41 | what is generated is well written, whatever the item, the bounds and the separator, unless a separator meets a maximum of zero |
| `Separated.SeparatedExact` | common/json-schema-to-grammar.cpp:19-41 | describes exactly the lists of between min and max items with one separator between neighbours, empty only for min zero |
| `Separated.SensibleRepetition` | common/json-schema-to-grammar.cpp:36-40 | its bounds are the right way round exactly when min and max were |
| `Separated.ListRule` | common/json-schema-to-grammar.cpp:19-41 | a rule for such a list describes exactly those lists |
| `RefusedRules.MinusOneRefused` | common/grammar-parser.cpp:297-308 | a mark with an upper bound of minus one is a syntax error wherever it stands |
| `RefusedRules.RepetitionFails` | common/json-schema-to-grammar.cpp:36-40 | the text written for a separated repetition of at most zero items is refused wherever it stands |
| `RefusedRules.ArrayRefused` | common/json-schema-to-grammar.cpp:976-976 | a grammar with the rule written for an array of at most zero items is not read, whatever stands around it |
| `RefusedRules.ParseArrayOfNone` | common/json-schema-to-grammar.cpp:976-976 | and the parser makes the empty state of it |
| `CompiledRules.SeparatedCompiled` | common/json-schema-to-grammar.cpp:19-41 | both stages: in the table that is accepted for a grammar with such a rule, it denotes exactly the lists of between min and max items |
| `CompiledRules.ArrayWritten` | common/json-schema-to-grammar.cpp:976-976 | the rule for an array is well written |
| `CompiledRules.ArraySensible` | common/json-schema-to-grammar.cpp:976-976 | its bounds are the right way round exactly when minItems and maxItems were |
| `CompiledRules.ArrayCompiled` | common/json-schema-to-grammar.cpp:976-976 | both stages: the rule denotes exactly the arrays of between minItems and maxItems items |
| `KeyTrie.Trie.Insert` | common/json-schema-to-grammar.cpp:633-639 | after it the trie holds exactly the parts of the keys, and marks exactly the keys |
| `KeyTrie.Trie.Visit` | common/json-schema-to-grammar.cpp:650-675 | writes for a node the alternatives that depend only on the set of keys through it |
| `KeyTrie.BuildNotStrings` | common/json-schema-to-grammar.cpp:625-684 | the text is that of the alternatives between the listed keys, and depends only on the set of strings, not on their order |
| `KeyExclusion.AlternativesExact` | common/json-schema-to-grammar.cpp:650-675 | the alternatives that are meant accept exactly the texts that leave the listed keys, in any grammar |
| `KeyExclusion.CharRuleExact` | common/json-schema-to-grammar.cpp:287-287 | the rule for a character describes exactly the characters of a JSON string as they are written |
| `KeyExclusion.KeysExact` | common/json-schema-to-grammar.cpp:647-681 | exactly what is accepted in the place of a key by what is meant, for every text |
| `KeyExclusion.PlainKeysExact` | common/json-schema-to-grammar.cpp:617-684 | a key of plain characters is let in exactly when it is neither listed nor a non-empty proper part of a listed key nor lost to a dash |
| `KeyExclusion.WrittenKeysExact` | common/json-schema-to-grammar.cpp:617-684 | the same for keys with escapes, with the exact condition under which one is lost |
| `KeyExclusion.SpannedHold` | common/json-schema-to-grammar.cpp:673-673 | the ranges that characters are read as hold just these characters and what lies around a dash |
| `KeyExclusion.OnePart` | common/json-schema-to-grammar.cpp:650-675 | a text leaves the listed keys in one place, if it begins none of them |
| `KeyExclusion.EscapeLost` | common/json-schema-to-grammar.cpp:673-673 | with any plain key listed, the key that is one escaped backslash is not accepted |
| `KeyExclusion.EmptyKeyAlone` | common/json-schema-to-grammar.cpp:676-681 | with just the empty key listed, just the empty key is accepted |
| `KeyExclusion.NotStringsExact` | common/json-schema-to-grammar.cpp:649-682 | such a key stands between quotes, before space, and nothing else is accepted |
| `KeySpelling.SingleExact` | common/json-schema-to-grammar.cpp:660-660 | wherever the set for one byte stands, it is read as that set if and only if the byte is ASCII and none of NUL, `]`, `^` and the backslash |
| `KeySpelling.OthersExact` | common/json-schema-to-grammar.cpp:673-673 | the set for the other characters is read as their ranges if and only if all its bytes are ASCII and none of NUL, `]` and the backslash |
| `KeySpelling.SpellableStep` | common/json-schema-to-grammar.cpp:650-675 | the condition on the listed keys holds if and only if it does at the root and below each child |
| `KeySpelling.NotStringsWritten` | common/json-schema-to-grammar.cpp:647-683 | the text of the whole rule is well written if and only if the listed keys can be spelled |
| `KeyRules.KeyTextExact` | common/json-schema-to-grammar.cpp:625-684 | then the text is read to its end, as an expression that accepts exactly the keys that are let in, between quotes and before space |
| `KeyRules.DashFails` | common/json-schema-to-grammar.cpp:673-673 | with "a-t" and "as" listed, what is read from the text keeps out the key "aA", which is to be let in |
| `KeyRules.DashHarmless` | common/json-schema-to-grammar.cpp:673-673 | the plain keys let in are those that are to be if and only if every plain character in the range that a dash makes may itself come next |
| `StringRules.CharText` | common/json-schema-to-grammar.cpp:287-287 | the rule for characters has the text of the program |
| `StringRules.CharWritten` | common/json-schema-to-grammar.cpp:287-287 | and is well written |
| `StringRules.SpaceText` | common/json-schema-to-grammar.cpp:270-270 | the rule for space has the text of the program |
| `StringRules.SpaceExact` | common/json-schema-to-grammar.cpp:270-270 | it describes nothing, one blank, or a line break and up to twenty blanks and tabs |
| `KeyRules.CompileKeys` | common/json-schema-to-grammar.cpp:625-684 | both stages: from a list of keys that can be spelled, the table made from the generated text denotes exactly the keys that are let in, between quotes and before space |
| `SchemaRules.SchemaConverter.AddRule` | common/json-schema-to-grammar.cpp:400-414 | the rule is bound to the first name tried that is not bound to another one, and no name is ever bound again to something else |
| `SchemaRules.NamesReadable` | common/json-schema-to-grammar.cpp:400-411 | every name a rule gets consists of word characters |
| `SchemaRules.EscapedRun` | common/json-schema-to-grammar.cpp:401-401 | each longest run of characters that names cannot have becomes one dash, the rest stays |
| `SchemaRules.NameTried` | common/json-schema-to-grammar.cpp:402-411 | a rule gets its own name, or that with the first number for which no other rule has it |
| `SchemaRules.EarlierKeepMeaning` | common/json-schema-to-grammar.cpp:400-414 | adding a rule changes the meaning of nothing that refers to defined names |
| `Meaning.SameInLarger` | common/json-schema-to-grammar.cpp:400-414 | in a larger grammar, what refers to defined names keeps its meaning |
| `ObjectMembers.OptionalMembers` | common/json-schema-to-grammar.cpp:751-771 | optional members, each after a comma: exactly the selections from them in order |
| `ObjectMembers.FirstMembers` | common/json-schema-to-grammar.cpp:751-771 | the same where the first is there, without a comma before it |
| `ObjectMembers.ChosenMembers` | common/json-schema-to-grammar.cpp:773-778 | the alternatives together: exactly the selections that are not empty |
| `ObjectRules.ObjectExact` | common/json-schema-to-grammar.cpp:737-787 | exactly all required members in order and then any selection of the optional ones in order, the additional ones any number of times, with one comma between neighbours |
| `ObjectRules.RepeatsAdditional` | common/json-schema-to-grammar.cpp:751-771 | of names that differ, just "*" may be repeated |
| `ObjectRules.ObjectMore` | common/json-schema-to-grammar.cpp:737-787 | it stays the rule for that object whatever rules are added |
| `JsonTexts.Signs` | common/json-schema-to-grammar.cpp:737-785 | the signs of an object are a brace, a comma and a brace, each with space after it |
| `JsonTexts.ObjectInTexts` | common/json-schema-to-grammar.cpp:737-785 | an object of members is their texts with commas and space between them, in braces |
| `CompiledRules.ObjectCompiled` | common/json-schema-to-grammar.cpp:737-787 | in a table, the rule denotes exactly those objects |
| `ObjectBuilder.AddMembers` | common/json-schema-to-grammar.cpp:707-722 | each property has its rule, the last of a name that comes twice, and the properties are sorted into required and optional ones in order |
| `ObjectBuilder.ChosenAmong` | common/json-schema-to-grammar.cpp:716-720 | every property is in exactly one of the two lists |
| `ObjectBuilder.ChosenInOrder` | common/json-schema-to-grammar.cpp:716-720 | both lists are in the order of the properties, each of them once |
| `ObjectBuilder.MakeMember` | common/json-schema-to-grammar.cpp:712-715 | the rule for a property gets its qualified name, or the first that is free |
| `ObjectBuilder.MemberExact` | common/json-schema-to-grammar.cpp:712-715 | it describes just the key, space, a colon and space, and a text of the rule for its values |
| `ObjectBuilder.AdditionalExact` | common/json-schema-to-grammar.cpp:733-733 | the rule for other members describes just a key, a colon and space, and a value |
| `ObjectBuilder.AdditionalKeys` | common/json-schema-to-grammar.cpp:730-732 | where properties are listed, the keys of other members are just those let in by key exclusion, between quotes |
| `ObjectBuilder.RepeatedMembers` | common/json-schema-to-grammar.cpp:697-788 | without additional members, and no name listed twice, no member may be repeated if and only if no optional property is named "*" |
| `ObjectBuilder.AddAdditional` | common/json-schema-to-grammar.cpp:723-735 | members that are not listed get a rule whose keys are none of those listed |
| `ObjectBuilder.GetRecursiveRefs` | common/json-schema-to-grammar.cpp:751-771 | the first member and a reference to a rule for the others, which is there |
| `ObjectBuilder.BuildAlternatives` | common/json-schema-to-grammar.cpp:773-778 | the alternatives begin with each optional member in turn |
| `ObjectBuilder.BuildObjectRule` | common/json-schema-to-grammar.cpp:697-788 | the result is the rule for the object with these members, whose rules are in place: without a property "*", it describes just the texts in braces of all required members in order and then a selection of the others, each with key, colon and value |
| `NgramCounts.MakeNgram` | common/ngram-cache.h:24-28 | the first tokens, filled up with -1 |
| `NgramCounts.PaddedInjective` | common/ngram-cache.h:24-37 | filling up keeps n-grams of whatever sizes apart |
| `NgramCounts.TallyCounts` | common/ngram-cache.cpp:15-35 | for tokens that are not negative the tally is the number of positions where the n-gram is followed by the token |
| `NgramCache.Cache.Update` | common/ngram-cache.cpp:8-48 | adds, for each n-gram and token, the number of its occurrences among the new positions |
| `NgramCache.RunCounts` | common/ngram-cache.cpp:8-48 | updating chunk by chunk counts what counting all at once does |
| `NgramCache.AnyChunks` | common/ngram-cache.h:65-74 | two ways to split the same tokens end in the same cache |
| `NgramCache.RunCountsPositions` | common/ngram-cache.h:65-74 | after a run every count is the number of positions where the n-gram is followed by the token |
| `NgramCache.Cache.Merge` | common/ngram-cache.cpp:257-282 | pointwise addition, for any order of the entries, also of a cache with itself |
| `NgramCache.MergeCommutesWithUpdate` | common/ngram-cache.cpp:257-282 | merging and updating may be done in either order |
| `NgramCache.MergedRuns` | common/ngram-cache.cpp:257-282 | merged caches count the positions of both sequences |
| `NgramCache.SameCounts` | common/ngram-cache.cpp:8-48 | caches without empty parts or counts that are not positive are determined by their counts |
| `NgramFile.Save` | common/ngram-cache.cpp:196-217 | in whatever order the entries are written, reading the file gives the cache back |
| `NgramFile.Load` | common/ngram-cache.cpp:219-255 | reads what the file says, with each error |
| `NgramFile.ReadProper` | common/ngram-cache.cpp:230-250 | whatever is loaded has no empty part and only positive counts |
| `NgramFile.PartSays` | common/ngram-cache.cpp:234-250 | a part is four tokens, the number of entries, and each token with its count; the first entry for a token is kept |
| `NgramDraft.BestToken` | common/ngram-cache.cpp:113-128 | a token of highest count times weight, and the sum of all counts, for any order of the tokens |
| `NgramDraft.TryDraftStatic` | common/ngram-cache.cpp:62-91 | a token of highest count if there are enough samples and enough of them are of it, else none |
| `NgramDraft.TryDraft` | common/ngram-cache.cpp:94-140 | the longest n-gram with enough support yields the token, and none does if there is no token |
| `NgramDraft.LastNgram` | common/ngram-cache.cpp:156-160 | each key is the true end of the input followed by the draft without its first token |
| `NgramDraft.NextToken` | common/ngram-cache.cpp:153-187 | the context cache decides, else the dynamic one, else the static one |
| `NgramDraft.Draft` | common/ngram-cache.cpp:142-194 | the first token is kept, at most the number asked for are added, every one is justified by what comes before it, and it stops only when there are enough or none may be drafted |
| `NgramDraft.FollowersSum` | common/ngram-cache.cpp:113-129 | the counts of all followers sum up to the positions where something follows |
| `NgramDraft.CountedPart` | common/ngram-cache.cpp:101-107 | what a cache of the whole input holds for an n-gram is how often each token follows it |
| `NgramDraft.ContextBacked` | common/ngram-cache.cpp:56-140 | a token from such a context cache followed the same tokens in the input at least 2, 2, 1 or 1 times and in 66 or 50 percent of the cases, and none scores higher by its count and a hundred times its count in the static cache |
| `NgramDraft.DraftedFrom` | common/ngram-cache.cpp:56-192 | whatever is drafted comes from the context cache, else the dynamic one, else the static one for the last two tokens, by the numbers of each and from the longest n-gram that yields a token |
| `LoraTensors.ReshapeCommutes` | convert_lora_to_gguf.py:128-152 | reshaping the factors reshapes the product |
| `LoraTensors.ReshapePossible` | convert_lora_to_gguf.py:128-152 | it can be done exactly when the product can be reshaped, the last axis stays, and one factor is a single matrix |
| `LoraTensors.ReshapedTo` | convert_lora_to_gguf.py:136-141 | the new shape is the one asked for, with what is left of the elements in the place of -1 |
| `LoraTensors.DenseIsFlat` | convert_lora_to_gguf.py:145-152 | with a single matrix for all rows the product is that of two matrices, whatever the shapes |
| `LoraOperations.PermuteCommutes` | convert_lora_to_gguf.py:160-171 | permuting the factors, or transposing and exchanging them, permutes the product |
| `LoraOperations.PermutePossible` | convert_lora_to_gguf.py:160-171 | it can be done just if the last axis stays and one factor is a single matrix, or a matrix is transposed |
| `LoraOperations.NegativeAxes` | convert_lora_to_gguf.py:162-162 | negative axes count from the last |
| `LoraOperations.PickCommutes` | convert_lora_to_gguf.py:64-68 | one element of the first axis of the factors stands for that of the product, and when it can be had |
| `LoraOperations.SliceCommutes` | convert_lora_to_gguf.py:69-73 | slicing, with whatever bounds and step, slices the product: when it can be had, and exactly when the factors of a slice fit together |
| `Tensors.PermutedElement` | convert_lora_to_gguf.py:160-171 | each element of a permuted tensor is the one whose index has the same numbers at the axes named |
| `Tensors.PickedElement` | convert_lora_to_gguf.py:64-68 | an element of the first axis, counted from the end if its place is negative |
| `Tensors.SlicePlaces` | convert_lora_to_gguf.py:69-73 | a slice has just the places from its lower bound up to its upper one that are whole steps away, bounds being counted from the end if negative and moved inside |
| `Tensors.SlicedElement` | convert_lora_to_gguf.py:69-73 | in order |
| `LoraOperations.StackPossible` | convert_lora_to_gguf.py:196-203 | tensors can be stacked just when all factors have the same shapes |
| `LoraOperations.StackCommutes` | convert_lora_to_gguf.py:196-203 | stacking stacks the products |
| `LoraJoining.JoinCommutes` | convert_lora_to_gguf.py:204-219 | what is joined stands for the joined products |
| `LoraJoining.CatPossible` | convert_lora_to_gguf.py:204-219 | tensors can be joined just when the factors have the same axes after the first; matrices, when they share one factor |
| `LoraJoining.CatCommutes` | convert_lora_to_gguf.py:204-219 | joining a list joins the products |
| `HeadPermutation.SwapCommutes` | convert_lora_to_gguf.py:173-180 | swapping axes swaps those of the product |
| `HeadPermutation.HeadsCommute` | convert_hf_to_gguf.py:1504-1510 | run on the factors, the permutation of the heads gives the permuted product |
| `HeadPermutation.RowsMoved` | convert_hf_to_gguf.py:1504-1510 | where each row of a matrix is put, by the heads for keys and values if their number is given |
| `HeadPermutation.LoraRowsMoved` | convert_hf_to_gguf.py:1504-1510 | the same of the matrix that a pair of factors stands for |
| `HeadPermutation.HeadsPossible` | convert_hf_to_gguf.py:1504-1510 | a matrix can be permuted just when its rows are made up of that many heads of two halves |
| `HeadPermutation.LoraHeadsPossible` | convert_hf_to_gguf.py:1504-1510 | and a pair of factors just when its matrix can |
| `HeadPermutation.SideBySide` | convert_hf_to_gguf.py:1504-1510 | the rows of the two halves of a head come side by side |
| `HeadPermutation.EveryRow` | convert_hf_to_gguf.py:1504-1510 | every row is one of a half of a head |
| `HeadPermutation.EveryNewRow` | convert_hf_to_gguf.py:1504-1510 | some row is put at every place |
| `HeadPermutation.PlacesDistinct` | convert_hf_to_gguf.py:1504-1510 | different rows are put at different places |
| `BpeMerges.FindBest` | convert_hf_to_gguf.py:1819-1825 | the first pair of least rank |
| `BpeMerges.Bpe` | convert_hf_to_gguf.py:1815-1830 | terminates with the result of merging the best pair while the cap allows: no neighbours are left that make up a token, or one below the cap |
| `BpeMerges.LeadsStep` | convert_hf_to_gguf.py:1817-1829 | each step joins the first neighbours of least rank, and there is one as long as some are below the cap |
| `BpeMerges.LeadsUnique` | convert_hf_to_gguf.py:1815-1830 | there is one result |
| `BpeMerges.LeadsConcat` | convert_hf_to_gguf.py:1815-1830 | the parts always make up the token |
| `BpeMerges.LeadsKnown` | convert_hf_to_gguf.py:1815-1830 | each part is a byte or a token of a rank below the cap |
| `BpeMerges.CappedIsPrefix` | convert_hf_to_gguf.py:1826-1827 | a capped run is the beginning of the run without a cap |
| `BpeMerges.MergeRecovered` | convert_hf_to_gguf.py:641-647 | a token whose capped run leaves two parts is their merge, and is rebuilt whole without the cap |
| `BpeMerges.PassesCapped` | convert_hf_to_gguf.py:1826-1827 | the run without a cap passes through where the capped one ends |
| `BpeMerges.TwoPartsLeft` | convert_hf_to_gguf.py:641-647 | two parts are left, as the converter asserts, if and only if the run without a cap rebuilds the token, provided that all tokens that are proper parts of it have lower ranks |
| `ExpertTensors.ExpertGatherer.ModifyTensors` | convert_hf_to_gguf.py:1523-1555 | for any interleaving, a layer hands out its three stacks, in the order of the experts, with its last tensor and never otherwise |
| `ExpertTensors.TakeWeight` | convert_hf_to_gguf.py:1541-1544 | all tensors of a weight are there, and are taken out in order |
| `ExpertTensors.ExpertGatherer.PrepareTensors` | convert_hf_to_gguf.py:1588-1594 | raises exactly if some layer of which something has come is not complete |
| `ExpertTensors.Enough` | convert_hf_to_gguf.py:1534-1534 | the number of waiting tensors tells exactly whether the layer is complete |
| `ExpertTensors.StacksOf` | convert_hf_to_gguf.py:1537-1553 | the stacks are those of w1, w2 and w3, each with the tensors of its weight |
| `ExpertTensors.NameOf` | convert_hf_to_gguf.py:1542-1542 | the name of a tensor of an expert |
| `ExpertTensors.NamesDiffer` | convert_hf_to_gguf.py:1542-1542 | different experts have tensors of different names |
| `TrainingRows.FillRow` | common/train.cpp:247-289 | a row is a prefix of the stream of samples and separators, inputs are the targets shifted by one after the beginning of sequence, every target is certain, and the samples begun are counted |
| `TrainingRows.GetExampleTargetsBatch` | common/train.cpp:213-293 | each row goes on with the sample after the last one begun, from the offset of that or its beginning, with the tokens of the data moved into the vocabulary, and the count returned is that of all samples begun |
| `TrainingRows.SampleCopied` | common/train.cpp:280-284 | while its first sample goes on a row has the tokens of the data, those outside the vocabulary moved to its nearer end |
| `TrainingRows.LaterCopied` | common/train.cpp:270-284 | after a separator it has those of the next sample from its beginning on |
| `TrainingRows.SeparatorPut` | common/train.cpp:260-270 | between samples there are an end and a beginning of sequence, each if it is asked for, and an empty sample is one more end |
| `TrainingRows.AdvanceKeeps` | common/train.cpp:260-284 | one step of the filler goes on as the stream does |
| `TrainingRows.StreamLonger` | common/train.cpp:260-284 | there is one stream: that of fewer samples begins that of more |
| `TrainingRows.AdvanceInVocabulary` | common/train.cpp:280-285 | every token put is one of the vocabulary |
| `Base64.Encode` | common/base64.hpp:79-144 | the letters and padding of the bytes, group by group |
| `Base64.GroupBits` | common/base64.hpp:92-140 | a group writes the bits of its bytes, and zeros after them, in order |
| `Base64.Decode` | common/base64.hpp:199-244 | the bytes the text says, or its error, also in place over the text; nothing after them is touched |
| `Base64.DecodeLetters` | common/base64.hpp:204-229 | what is overwritten has been read before |
| `Base64.RoundTrip` | common/base64.hpp:79-244 | decoding what was encoded gives the bytes back, with the same alphabet or one to be detected (sections 4 and 5 of RFC 4648) |
| `Base64.LetterIs` | common/base64.hpp:79-90 | the letters are those of the two alphabets, in their order |
| `Base64.LetterRead` | common/base64.hpp:344-386 | each letter stands for its six bits, and tells which alphabet it is of |
| `Base64.Encoded` | common/base64.hpp:338-341 | the encoded length is the one announced |
| `Base64.DecodedSize` | common/base64.hpp:324-327 | a decoded text is never longer than announced, three bytes for each four letters begun |
| `Base64.EncodedPadding` | common/base64.hpp:79-144 | padding fills up the last group and stands nowhere else |
| `Base64.DecodedText` | common/base64.hpp:199-244 | every text is read as the whole bytes in the bits of the letters it begins with, and is an error unless it ends there or goes on with padding |
| `Base64.AutoReads` | common/base64.hpp:366-386 | with the alphabet to be detected a text is read as with the one that can read it, if one can |

## Left out

- The numbers of the program are unbounded here: 32-bit rule ids, bounds of repetitions read with `stoul`, counts and positions do not wrap around. The bounds of integers are C++ integers.
- Error texts, and the characters printed for code points, are not modelled; which error occurs is.
- `ParseState` keeps its maps and lists as values in fields that the methods reassign; positions in the source are indices of a string that ends at its first NUL or at its end.
- IntegerRules.BuildMinMaxInt: a maximum of -2147483648 is not admitted, because its negation is undefined in C++; and a lower bound below the top level has fewer digits than are left, as in every call from `IntegerRules.BuildInteger`.
- KeyRules.CompileKeys: is stated for listed keys of ASCII characters without NUL, `]`, `^` and the backslash; for others `KeySpelling.NotStringsWritten` says that some set is not read as its characters, and what is read then is not followed. Keys are byte strings here, compared as unsigned bytes.
- The exact text is modelled for repetitions, arrays, keys, and the rules for characters and space; integers and objects are modelled by their expressions, and go through the parser with the text of `GbnfRendering.CompileDefinitions` instead of the one the generator writes.
- ObjectBuilder.AddAdditional: keeps the expression that is meant for the keys that are not listed; `KeyRules.KeyTextExact` says when the text reads as that.
- ObjectBuilder.BuildObjectRule: the key of a property comes with it as a literal, its quoting by the JSON library not being modelled; the schemas of the properties are converted before, and their rules are parameters; the rule of a property that is itself named "*" is overwritten when additional members are let in, and then nothing is said about it. The order of properties given to the Python twin is not modelled.
- The conversion of regular expressions, references between schemas, formats, unions and the other cases of `visit`.
- NgramFile.Save: a file is a sequence of 32-bit integers; their bytes, and a rest of less than four bytes, are not modelled.
- NgramDraft.Draft: asks that the input is at least as long as the longest n-gram, without which the code reads before its beginning. `NgramDraft.TryDraft` may choose among tokens of equal score, as the order of a hash table does.
- NgramCounts.TallyCounts: asks for tokens that are not negative; `NgramCache.Cache.Update` and `NgramCache.RunCounts` do not.
- Hashing, progress messages and the opening of files.
- Tensors hold real numbers; element types, rounding and empty `-1` expansions by zero are not modelled beyond the error.
- LoraTensors.ReshapeCommutes: asks that the factors have an inner dimension above zero; with none there is nothing in the factors that would tell the number of rows.
- LoraJoining.CatCommutes: with more than two axes it asks that both factors of each operand have as many matrices along the first axis.
- Indexing of low-rank tensors with tuples, and the collection of factors by name.
- ExpertTensors.ExpertGatherer.ModifyTensors: tensors come once each, with an index below the number of experts.
- TrainingRows.FillRow: one-hot targets are rows of an array; the tensor library and the model that names the special tokens are not part of this model. All samples must lie within the training data, which the code checks for the first of each row.
- Base64.Decode: iterators are modelled by arrays of bytes, and stricter padding than the code checks is not.
- Samplers, argument parsing, downloads, logging, optimizers and the writing of model files are not part of this model.
