# EduSuite core, modelled and verified in Dafny

EduSuite is a set of small teaching programs written in C#. This project models the parts of it that carry real logic and proves what they promise:

- **Maze toolkit** (`MazeGrid`, `MazeText`, `MazePaths`, `MazeCommands`, `MazeValidator`, `MazeGenerator`):
  - a mutable integer grid of cells 0 (road), 1 (wall), 5 (entrance) and 6 (exit);
  - its text serialiser and parser;
  - the breadth-first shortest-path finder;
  - the Russian direction formatter and the command parser that reads it back;
  - the step-by-step route validator;
  - the randomised depth-first maze generator.
- **File encryptor** (`CipherChars`, `ShiftCiphers`, `XorCipher`, `SubstitutionCipher`, `PermutationCipher`):
  - the Caesar, Vigenère, XOR, substitution and block-transposition ciphers;
  - the key checks the console applies before calling them.
- **Folder synchronizer** (`SyncTree`, `FolderSync`):
  - the first full pass that mirrors a source folder into a replica folder;
  - the change handlers that repeat each source event in the replica;
  - the bounded copy retry;
  - the set of the synchronizer's own writes and the ignore filter built on it.

  Each folder is a map from relative path to a file's content or a directory marker.
- **Colour tool** (`Colors`, `ColorMixer`): hex colour parsing and formatting, and colour averaging.
- **Console file manager** (`FileManager`, `WindowsPath`):
  - the quote-aware command-line tokenizer;
  - the case-insensitive command lookup;
  - path resolution against the current directory.
- **Spreadsheet viewer** (`Spreadsheet`):
  - the Excel file scan;
  - header-row detection, column naming and empty-row filtering over a worksheet's used range.

Code that changes state in place is modelled by methods, and each method is proved against a specification function:
- the maze grid is a class over a two-dimensional array;
- the synchronizer is a class whose replica tree and mark set its methods update;
- the loops become `while` loops with invariants.

The properties are proved about the specification functions as lemmas. `Text` holds the small part of .NET's string library these programs use. `Wrappers` holds `Option` and `Result`.

## Model

| member | source | states |
|---|---|---|
| MazeGrid.CellValue | Modules/Task4/Task4.Core/MazeCore.cs:10-16 | the four cell kinds map to the codes 0, 1, 5, 6 and each code maps back to its kind |
| MazeGrid.ValueOfType | Modules/Task4/Task4.Core/MazeCore.cs:10-16 | every admissible code is the code of the kind it names (the enum cast is a bijection on 0, 1, 5, 6) |
| MazeGrid.NewGrid | Modules/Task4/Task4.Core/MazeCore.cs:30-47 | non-positive width, then non-positive height, are rejected in that order; otherwise a fresh all-road grid with entrance (0,0) and exit (w-1,h-1) |
| MazeGrid.MazeGrid.constructor | Modules/Task4/Task4.Core/MazeCore.cs:30-47 | a w-by-h grid of zeros (road) with entrance (0,0) and exit (w-1,h-1) |
| MazeGrid.MazeGrid.GetCell | Modules/Task4/Task4.Core/MazeCore.cs:49-57 | a value exactly when (x, y) is inside the grid, and then the stored cell, which is always one of the four codes |
| MazeGrid.MazeGrid.SetCell | Modules/Task4/Task4.Core/MazeCore.cs:59-67 | fails exactly when (x, y) is outside; otherwise stores the kind's code at (x, y) and leaves every other cell unchanged |
| MazeGrid.MazeGrid.Snapshot | Modules/Task4/Task4.Core/MazeCore.cs:88-93 | a fresh array of the same dimensions holding the same cells |
| MazeGrid.WalkableByGetCell | Modules/Task4/Task4.Core/MazeCore.cs:74-86 | a cell is walkable exactly when it is inside the grid and not a wall |
| MazeText.AppendRow | Modules/Task4/Task4.Core/MazeCore.cs:106-118 | appends the row's codes separated by single spaces |
| MazeText.SerializeToText | Modules/Task4/Task4.Core/MazeCore.cs:98-127 | the text is the rows joined by the platform newline, each row its codes joined by spaces |
| MazeText.ReplaceCr | Modules/Task4/Task4.Core/MazeCore.cs:136-138 | same length, every carriage return turned into a line feed and nothing else changed |
| MazeText.TrimmedLines | Modules/Task4/Task4.Core/MazeCore.cs:142-152 | no more lines than the raw pieces, none of them empty |
| MazeText.CollectLines | Modules/Task4/Task4.Core/MazeCore.cs:140-152 | the trimmed non-empty lines, in order |
| MazeText.TrimmedLinesTrimmed | Modules/Task4/Task4.Core/MazeCore.cs:142-152 | every kept line starts with a non-white-space character |
| MazeText.EveryLineHasTokens | Modules/Task4/Task4.Core/MazeCore.cs:167-173 | every kept line has at least one token, so the skip of token-less lines never fires |
| MazeText.ParseCellsMeaning | Modules/Task4/Task4.Core/MazeCore.cs:186-201 | a row parses exactly when every token is an Int32 among 0, 1, 5, 6; the values are the tokens' numbers; a failure names the offending line as y+1 |
| MazeText.LineOkIff | Modules/Task4/Task4.Core/MazeCore.cs:175-201 | a line is accepted exactly when it has the expected number of tokens and they all parse as cells |
| MazeText.ParseRowsSuccess | Modules/Task4/Task4.Core/MazeCore.cs:165-215 | the rows parse exactly when every line is accepted against the first line's width |
| MazeText.ParseRowsValues | Modules/Task4/Task4.Core/MazeCore.cs:165-215 | one parsed row per line, each the cell parse of that line |
| MazeText.ParseRowsErrors | Modules/Task4/Task4.Core/MazeCore.cs:179-199 | a row failure is a ragged row, a non-number or a disallowed cell value |
| MazeText.FirstInRowMeaning | Modules/Task4/Task4.Core/MazeCore.cs:203-211 | the first index in a row holding a value, or none when the row lacks it |
| MazeText.FirstOfMeaning | Modules/Task4/Task4.Core/MazeCore.cs:203-211 | the first position in row-major order holding a value: it holds the value and no earlier cell does; none when no cell does |
| MazeText.ParseLine | Modules/Task4/Task4.Core/MazeCore.cs:184-214 | the cell parse of one line, carrying the first entrance and first exit seen so far |
| MazeText.ParseAllRows | Modules/Task4/Task4.Core/MazeCore.cs:165-215 | the row parse of all lines, together with the first entrance and first exit in row-major order |
| MazeText.FillGrid | Modules/Task4/Task4.Core/MazeCore.cs:238-246 | after the copy every grid cell equals the parsed value |
| MazeText.BuildGrid | Modules/Task4/Task4.Core/MazeCore.cs:232-248 | a fresh grid of the rows' dimensions holding the rows, with the given entrance and exit |
| MazeText.ParseSucceedsIff | Modules/Task4/Task4.Core/MazeCore.cs:129-250 | parsing succeeds exactly when the text is not blank, every line is well formed against the first line's width, and an entrance and an exit occur |
| MazeText.ParseShape | Modules/Task4/Task4.Core/MazeCore.cs:131-134 | a blank text is exactly the empty-text error; a parsed maze is rectangular with one row per line and the first line's width |
| MazeText.ParseEndpoints | Modules/Task4/Task4.Core/MazeCore.cs:203-211 | the entrance and exit are the first cells of code 5 and 6 in row-major order |
| MazeText.ParseFromText | Modules/Task4/Task4.Core/MazeCore.cs:129-250 | returns exactly the error of the text's parse, or a fresh grid holding the parsed rows, entrance and exit |
| MazeText.LinesOfBoardText | Modules/Task4/Task4.Core/MazeCore.cs:98-152 | the lines recovered from serialised text are the serialised rows |
| MazeText.ParseRowTexts | Modules/Task4/Task4.Core/MazeCore.cs:98-215 | the serialised rows parse back to the board |
| MazeText.RoundTrip | Modules/Task4/Task4.Core/MazeCore.cs:98-250 | serialising a rectangular board with an entrance and an exit and parsing it back yields the same rows, with its first entrance and first exit |
| MazePaths.OpenIsWalkable | Modules/Task4/Task4.Core/MazeCore.cs:74-86 | the board-level notion of an open cell agrees with the grid's IsWalkable |
| MazePaths.GetNeighbors | Modules/Task4/Task4.Core/MazeCore.cs:339-361 | exactly the walkable neighbours, each with its move, in the order up, down, left, right |
| MazePaths.Reversed | Modules/Task4/Task4.Core/MazeCore.cs:334 | the sequence read backwards |
| MazePaths.Nearest | Modules/Task4/Task4.Core/MazeCore.cs:281-304 | a cell reached at breadth-first level h has no route shorter than h |
| MazePaths.ExpandHead | Modules/Task4/Task4.Core/MazeCore.cs:281-303 | one pass of the search loop keeps the breadth-first invariant and strictly shrinks the unvisited cells or the queue |
| MazePaths.VisitNeighbors | Modules/Task4/Task4.Core/MazeCore.cs:289-302 | every neighbour ends visited, each newly visited cell queued with its parent and move one level deeper |
| MazePaths.ReadBack | Modules/Task4/Task4.Core/MazeCore.cs:312-336 | following the parent links from the goal yields a route from the start to the goal whose length is the goal's distance |
| MazePaths.NoRoute | Modules/Task4/Task4.Core/MazeCore.cs:306-311 | when the queue empties without visiting the goal, no route to it exists |
| MazePaths.FindPath | Modules/Task4/Task4.Core/MazeCore.cs:264-337 | a non-empty answer is a route from entrance to exit; an empty answer means entrance equals exit or no route exists; whenever a route exists the answer is a route no longer than any other |
| MazeCommands.Words | Modules/Task4/Task4.Core/MazeCore.cs:393-404 | one Russian word per direction |
| MazeCommands.FormatDirections | Modules/Task4/Task4.Core/MazeCore.cs:366-391 | the Russian words joined by ", ", or the not-found message for no directions |
| MazeCommands.LowerRu | Modules/Task4/Task4.Core/MazeCore.cs:448 | a character lowers to a Latin letter only when it is that letter, its ASCII capital, the dotted capital I or the Kelvin sign |
| MazeCommands.LowerRuString | Modules/Task4/Task4.Core/MazeCore.cs:448 | lower-cases character by character, keeping the length |
| MazeCommands.ParseDirectionMeaning | Modules/Task4/Task4.Core/MazeCore.cs:446-458 | a direction exactly when the lower-cased token is its Russian or English word |
| MazeCommands.ParseDirectionIgnoresCase | Modules/Task4/Task4.Core/MazeCore.cs:448 | a token and its lower-cased form parse alike |
| MazeCommands.CapitalsParse | Modules/Task4/Task4.Core/MazeCore.cs:448-455 | the upper-case English words are accepted |
| MazeCommands.TrimAll | Modules/Task4/Task4.Core/MazeCore.cs:427 | every part trimmed, one per part |
| MazeCommands.ParseCommands | Modules/Task4/Task4.Core/MazeCore.cs:408-444 | the result of the command grammar on the text (blank text, unknown token, or no commands are errors) |
| MazeCommands.ParseTokensMeaning | Modules/Task4/Task4.Core/MazeCore.cs:423-437 | the tokens parse exactly when each is blank or a known direction |
| MazeCommands.ParseTokensFailure | Modules/Task4/Task4.Core/MazeCore.cs:446-458 | a failure names the first unknown token and its one-based position |
| MazeCommands.NoCommandsIff | Modules/Task4/Task4.Core/MazeCore.cs:439-442 | the no-commands error arises exactly when the text is not blank but every part trims to nothing |
| MazeCommands.ParseTokensOnePerToken | Modules/Task4/Task4.Core/MazeCore.cs:423-437 | with no blank tokens the parse yields one direction per token, in order |
| MazeCommands.RoundTrip | Modules/Task4/Task4.Core/MazeCore.cs:366-444 | parsing a formatted non-empty route gives back the route |
| MazeCommands.NotFoundRejected | Modules/Task4/Task4.Core/MazeCore.cs:373-376 | the formatter's not-found message is rejected by the parser as an unknown command at position 1 |
| MazeValidator.ValidatePath | Modules/Task4/Task4.Core/MazeCore.cs:486-537 | the result of the step-by-step walk specification from the entrance |
| MazeValidator.ValidationMeaning | Modules/Task4/Task4.Core/MazeCore.cs:495-537 | success exactly when every move stays on open cells and ends on an exit cell; the step count and final cell are those at the first bad move, or the end of the walk |
| MazeValidator.FoundRouteValidates | Modules/Task4/Task4.Core/MazeCore.cs:264-537 | a route found by the path finder is accepted by the validator |
| MazeGenerator.Clamp | Modules/Task4/Task4.Core/MazeCore.cs:558-562 | the requested size clamped into 5..200 |
| MazeGenerator.FillWalls | Modules/Task4/Task4.Core/MazeCore.cs:566-572 | every cell becomes a wall |
| MazeGenerator.SetLogicalCellAsRoad | Modules/Task4/Task4.Core/MazeCore.cs:640-649 | the physical cell of a logical cell becomes road when inside; no other cell changes |
| MazeGenerator.TryAdd | Modules/Task4/Task4.Core/MazeCore.cs:660-670 | appends the neighbour exactly when it is inside the logical grid and unvisited |
| MazeGenerator.GetUnvisitedNeighbors | Modules/Task4/Task4.Core/MazeCore.cs:651-678 | exactly the adjacent logical cells that are inside and unvisited |
| MazeGenerator.CarvePassage | Modules/Task4/Task4.Core/MazeCore.cs:680-710 | both logical cells and the grid cell half way between them become road; every other cell keeps its value |
| MazeGenerator.Advance | Modules/Task4/Task4.Core/MazeCore.cs:616-622 | one carving step keeps the depth-first walk well formed and strictly enlarges the visited set |
| MazeGenerator.CarveMaze | Modules/Task4/Task4.Core/MazeCore.cs:590-623 | the depth-first carving terminates, keeps the border walls, only turns cells into road and leaves at least one inner road |
| MazeGenerator.CollectRoads | Modules/Task4/Task4.Core/MazeCore.cs:725-736 | every collected cell is an inner road cell, and one is collected whenever one exists |
| MazeGenerator.EnsureColumnHasRoad | Modules/Task4/Task4.Core/MazeCore.cs:712-759 | a column that already has an inner road is left unchanged; otherwise, if the grid has an inner road, the column ends with a road cell; cells change only to road |
| MazeGenerator.ChooseRandomRoadYInColumn | Modules/Task4/Task4.Core/MazeCore.cs:761-781 | a row index of a road cell in the column, or height/2 when the column has none |
| MazeGenerator.CarvedGrid | Modules/Task4/Task4.Core/MazeCore.cs:564-626 | a grid of the given size with walls on the border and a road in columns 1 and width-2 |
| MazeGenerator.OpenBorders | Modules/Task4/Task4.Core/MazeCore.cs:628-635 | the entrance and exit are placed on the left and right borders next to road cells; every other cell is road or wall and the border is wall |
| MazeGenerator.Generate | Modules/Task4/Task4.Core/MazeCore.cs:556-638 | a clamped-size grid whose entrance is on the left border and exit on the right border, each next to a road cell, with every other cell road or wall and a walled border |
| CipherChars.Wrap32 | Modules/Encryptor.Console/Program.cs:265 | a 32-bit wrap-around: values already in Int32 range are kept, others are reduced modulo 2^32 |
| CipherChars.Neg32 | Modules/Encryptor.Console/Program.cs:265 | unary minus on Int32: -x, except that Int32.MinValue negates to itself |
| CipherChars.TruncRem | Modules/Encryptor.Console/Program.cs:278 | C#'s remainder, which truncates toward zero: the Euclidean remainder for a non-negative dividend, a non-positive remainder for a negative one |
| CipherChars.ToLower | Modules/Encryptor.Console/Program.cs:410 | an upper-case letter becomes the lower-case letter whose upper case it is; other characters are unchanged |
| CipherChars.ToUpper | Modules/Encryptor.Console/Program.cs:306 | a lower-case letter becomes upper case; other characters are unchanged |
| CipherChars.ToUpperOfLower | Modules/Encryptor.Console/Program.cs:411-412 | lower-casing the upper case of a lower-case letter gives the letter back |
| ShiftCiphers.ShiftLatin | Modules/Encryptor.Console/Program.cs:276-278 | for a shift in -26..26 a Latin letter moves within its own case's alphabet by the shift modulo 26 |
| ShiftCiphers.ShiftLetterInverse | Modules/Encryptor.Console/Program.cs:276-278 | for a Latin letter and a shift in -26..26, shifting back by the negated shift restores the letter |
| ShiftCiphers.Caesar | Modules/Encryptor.Console/Program.cs:268-287 | the output has the input's length and keeps every non-letter in place |
| ShiftCiphers.CaesarTransform | Modules/Encryptor.Console/Program.cs:268-287 | the character loop computes the Caesar specification |
| ShiftCiphers.CaesarEncrypt | Modules/Encryptor.Console/Program.cs:258-261 | encryption is the transform with the shift as given |
| ShiftCiphers.CaesarDecrypt | Modules/Encryptor.Console/Program.cs:263-266 | decryption is the transform with the shift negated in 32-bit arithmetic |
| ShiftCiphers.CaesarPreservesCase | Modules/Encryptor.Console/Program.cs:274-278 | for Latin text and a shift in -26..26, letters stay Latin letters of the same case |
| ShiftCiphers.CaesarRoundTrip | Modules/Encryptor.Console/Program.cs:258-287 | for Latin text and a shift in -26..26, decrypting the encryption gives the text back |
| ShiftCiphers.CaesarShiftBelowRange | Modules/Encryptor.Console/Program.cs:277-278 | with shift -27 the letter 'a' encrypts to the backquote, which decryption leaves alone: the round trip fails |
| ShiftCiphers.KeyShifts | Modules/Encryptor.Console/Program.cs:306-314 | one shift per key character: its upper case minus 'A' |
| ShiftCiphers.Vigenere | Modules/Encryptor.Console/Program.cs:303-329 | the output has the input's length and keeps every non-letter in place |
| ShiftCiphers.VigenereTransform | Modules/Encryptor.Console/Program.cs:303-329 | the character loop, whose key index advances only on letters, computes the Vigenère specification |
| ShiftCiphers.VigenereEncrypt | Modules/Encryptor.Console/Program.cs:293-296 | encryption adds the key shifts |
| ShiftCiphers.VigenereDecrypt | Modules/Encryptor.Console/Program.cs:298-301 | decryption subtracts the key shifts |
| ShiftCiphers.VigenereKeepsLetters | Modules/Encryptor.Console/Program.cs:311-320 | with shifts in -26..26, encryption maps letters to letters, so the letter count, and with it the key position, is the same on both sides |
| ShiftCiphers.VigenereRoundTrip | Modules/Encryptor.Console/Program.cs:303-329 | for Latin text and a non-empty Latin key, decrypting the encryption gives the text back |
| ShiftCiphers.VigenereRussianKey | Modules/Encryptor.Console/Program.cs:108-113 | the key "Ж" passes the letter check, yet 'b' encrypts to 'u', which decrypts to 'H' |
| ShiftCiphers.CaesarRussianText | Modules/Encryptor.Console/Program.cs:274-278 | the Russian letter 'Ж' counts as a letter, yet at shift 0 it encrypts to 'T', which decryption leaves as 'T' |
| ShiftCiphers.VigenereRussianText | Modules/Encryptor.Console/Program.cs:311-318 | with key "A" the text "Ж" encrypts to "T", which decrypts to "T" |
| CipherChars.CyrillicLetter | Modules/Encryptor.Console/Program.cs:274-278 | the Russian letter of the given case at an index of the 33-letter alphabet, whose index is that index |
| CipherChars.CyrillicLetterOfIndex | Modules/Encryptor.Console/Program.cs:274-278 | every Russian letter is the letter of its own case at its own alphabet index |
| ShiftCiphers.RotateLetter | Modules/Encryptor.Console/Program.cs:274-278 | the corrected letter step: for any shift a letter stays a letter of the same script and case |
| ShiftCiphers.RotateLetterInverse | Modules/Encryptor.Console/Program.cs:274-278 | rotating a Latin or Russian letter by a shift and then by its opposite gives the letter back |
| ShiftCiphers.CaesarCorrected | Modules/Encryptor.Console/Program.cs:258-287 | the corrected Caesar keeps the length and which positions hold letters |
| ShiftCiphers.CaesarCorrectedRoundTrip | Modules/Encryptor.Console/Program.cs:258-287 | for every text, Russian included, and every shift except Int32.MinValue, decrypting the corrected encryption gives the text back |
| ShiftCiphers.VigenereCorrected | Modules/Encryptor.Console/Program.cs:303-329 | the corrected Vigenère keeps the length and which positions hold letters |
| ShiftCiphers.VigenereCorrectedRoundTrip | Modules/Encryptor.Console/Program.cs:303-329 | for every text, Russian included, and every non-empty key, whatever its letters, decrypting the corrected encryption gives the text back |
| XorCipher.XorBitsTwice | Modules/Encryptor.Console/Program.cs:341 | bitwise exclusive or with the same value twice is the identity |
| XorCipher.Xor | Modules/Encryptor.Console/Program.cs:335-345 | the output has the input's length |
| XorCipher.EncryptDecrypt | Modules/Encryptor.Console/Program.cs:335-345 | the character loop xors each unit with the key repeated cyclically |
| XorCipher.XorInvolution | Modules/Encryptor.Console/Program.cs:335-345 | for any non-empty key, applying the cipher twice gives the text back |
| SubstitutionCipher.CreateMapping | Modules/Encryptor.Console/Program.cs:386-400 | the loop builds the dictionary of the 26 assignments over the lower-cased key, later keys overwriting earlier ones |
| SubstitutionCipher.EncryptMapping | Modules/Encryptor.Console/Program.cs:393-397 | for a valid key the encryption dictionary has exactly a..z as keys and maps the i-th letter to the lower-cased i-th key letter |
| SubstitutionCipher.DecryptMapping | Modules/Encryptor.Console/Program.cs:393-397 | for a valid key the decryption dictionary maps each lower-cased key letter back to its alphabet letter and has no other keys |
| SubstitutionCipher.Substitute | Modules/Encryptor.Console/Program.cs:402-422 | defined exactly when every letter's lower case is in the dictionary; then same length, non-letters kept |
| SubstitutionCipher.Transform | Modules/Encryptor.Console/Program.cs:402-422 | the character loop computes the substitution specification, failing on a missing key |
| SubstitutionCipher.Encrypt | Modules/Encryptor.Console/Program.cs:374-378 | encryption substitutes with the encryption dictionary |
| SubstitutionCipher.Decrypt | Modules/Encryptor.Console/Program.cs:380-384 | decryption substitutes with the decryption dictionary |
| SubstitutionCipher.EncryptFailsOnNonLatin | Modules/Encryptor.Console/Program.cs:408-413 | encryption fails exactly when the text has a letter outside A-Z and a-z |
| SubstitutionCipher.RoundTrip | Modules/Encryptor.Console/Program.cs:374-422 | with a key of 26 distinct letters, Latin text encrypts and decrypts back to itself, case included |
| PermutationCipher.Permute | Modules/Encryptor.Console/Program.cs:445-474 | the output has the input's length |
| PermutationCipher.ReadBlock | Modules/Encryptor.Console/Program.cs:452-460 | a fresh block of the key's length holding the text from i on, padded with spaces |
| PermutationCipher.WriteBlock | Modules/Encryptor.Console/Program.cs:462-470 | writes the permuted characters of one block and nothing before or after it |
| PermutationCipher.Transform | Modules/Encryptor.Console/Program.cs:445-474 | the block loop computes the permutation specification |
| PermutationCipher.Pigeonhole | Modules/Encryptor.Console/Program.cs:184-186 | distinct values in 1..m number at most m |
| PermutationCipher.Surjective | Modules/Encryptor.Console/Program.cs:184-186 | a valid key takes every value in 1..n |
| PermutationCipher.Inverse | Modules/Encryptor.Console/Program.cs:435-440 | inverse[p[i]-1] = i+1 for all i, the result is again a valid key, and p[inverse[j]-1] = j+1 |
| PermutationCipher.Encrypt | Modules/Encryptor.Console/Program.cs:428-431 | encryption permutes with the key |
| PermutationCipher.Decrypt | Modules/Encryptor.Console/Program.cs:433-443 | decryption permutes with the inverse key |
| PermutationCipher.RoundTrip | Modules/Encryptor.Console/Program.cs:428-474 | when the text length is a multiple of the key length, decrypting the encryption gives the text back |
| PermutationCipher.PartialBlockLost | Modules/Encryptor.Console/Program.cs:452-468 | in a trailing partial block a position whose source lies past the end receives the padding space: with key 3 1 2, "ab" encrypts to " a" and decrypts to "a " |
| PermutationCipher.PadToBlocks | Modules/Encryptor.Console/Program.cs:452-457 | the corrected padding: the text followed by fewer spaces than a block, making whole blocks |
| PermutationCipher.EncryptPadded | Modules/Encryptor.Console/Program.cs:428-431 | the corrected encryption permutes the padded text with the key |
| PermutationCipher.PaddedRoundTrip | Modules/Encryptor.Console/Program.cs:428-474 | with the padding, decrypting the encryption of any text gives the text back, followed only by the padding spaces |
| Colors.UpperHexDigit | Modules/Task2/Task2.Core/ColorsCore.cs:49 | the upper-case hex digit of a value below 16, whose hex value is that value |
| Colors.HexPairToByte | Modules/Task2/Task2.Core/ColorsCore.cs:40-42 | two characters convert to a byte exactly when the second is a hex digit and the first is a hex digit or '+'; two hex digits give 16*high + low |
| Colors.ParseHex | Modules/Task2/Task2.Core/ColorsCore.cs:21-45 | a missing string is the null-argument error; a body (trimmed, one leading '#' stripped) not of length 6 is the format error; otherwise success exactly when all three pairs convert; the colour is opaque |
| Colors.X2 | Modules/Task2/Task2.Core/ColorsCore.cs:49 | two upper-case hex digits whose value is the byte |
| Colors.ToHex | Modules/Task2/Task2.Core/ColorsCore.cs:47-50 | '#' followed by six upper-case hex digits |
| Colors.ParseOfToHex | Modules/Task2/Task2.Core/ColorsCore.cs:21-50 | parsing a formatted colour gives an opaque colour with the same red, green and blue |
| Colors.ParseSixDigits | Modules/Task2/Task2.Core/ColorsCore.cs:28-44 | a body of six hex digits parses to the colour of its three pairs |
| Colors.ToHexOfParse | Modules/Task2/Task2.Core/ColorsCore.cs:28-49 | formatting a parsed six-digit body gives '#' and the body upper-cased |
| Colors.PlusSignAccepted | Modules/Task2/Task2.Core/ColorsCore.cs:40 | a '+' sign in a pair is accepted by the base-16 conversion, so "#+F0000" parses as red 15 |
| ColorMixer.Mix | Modules/Task2/Task2.Core/ColorsCore.cs:55-78 | fails exactly on an empty list; otherwise the colour whose channels are the floored averages of the channels |
| ColorMixer.SumBounds | Modules/Task2/Task2.Core/ColorsCore.cs:62-71 | a channel sum lies between count times the lower bound and count times the upper bound |
| ColorMixer.AverageBetween | Modules/Task2/Task2.Core/ColorsCore.cs:73-75 | each mixed channel lies between any lower and upper bound of that channel over the list, so the byte cast never truncates |
| ColorMixer.AverageOfOne | Modules/Task2/Task2.Core/ColorsCore.cs:55-78 | a single colour mixes to itself |
| ColorMixer.SumPermutation | Modules/Task2/Task2.Core/ColorsCore.cs:66-71 | channel sums do not depend on the order of the list |
| ColorMixer.AverageOrderIndependent | Modules/Task2/Task2.Core/ColorsCore.cs:55-78 | the mix does not depend on the order of the list |
| FileManager.Tokenize | Modules/FileManager.Console/Program.cs:142-174 | the character loop computes the tokenizer specification |
| FileManager.TokensNonEmpty | Modules/FileManager.Console/Program.cs:160-171 | no token is empty |
| FileManager.TokensNoQuote | Modules/FileManager.Console/Program.cs:152-156 | no token contains a double quote |
| FileManager.TokensMeaning | Modules/FileManager.Console/Program.cs:148-171 | tokens are non-empty and quote-free, and their concatenation is the input without its quotes and its unquoted white space |
| FileManager.NoTokensIff | Modules/FileManager.Console/Program.cs:235-238 | there are no tokens exactly when nothing but quotes and unquoted white space is typed; a blank line has none |
| FileManager.QuotedRoundTrip | Modules/FileManager.Console/Program.cs:148-171 | a line of quoted, space-separated, quote-free words tokenizes back to the words, white space inside them included |
| FileManager.NameUpper | Modules/FileManager.Console/Program.cs:15-25 | the seven command names are lower-case ASCII and upper-case to their listed capitals |
| FileManager.LookupMeaning | Modules/FileManager.Console/Program.cs:15-25 | a command is found exactly when the word equals its name ignoring case (the lookup at line 244); nothing is found exactly when no name matches |
| FileManager.InterpretMeaning | Modules/FileManager.Console/Program.cs:235-256 | a line is skipped exactly when it has no tokens; otherwise the first token selects the command, ignoring case, and the remaining tokens in order are its arguments, or the command is reported unknown |
| FileManager.WordThenQuoted | Modules/FileManager.Console/Program.cs:148-171 | a word followed by a quoted argument gives exactly those two tokens |
| FileManager.QuotedArgument | Modules/FileManager.Console/Program.cs:235-248 | a command name followed by a quoted argument runs that command on that one argument |
| FileManager.ResolvePath | Modules/FileManager.Console/Program.cs:176-183 | a rooted path is returned unchanged; any other path is appended to the current directory, with one backslash between them when neither side supplies a separator |
| FileManager.ResolveIdempotent | Modules/FileManager.Console/Program.cs:176-183 | from a rooted current directory the result is rooted, so resolving it again changes nothing |
| Spreadsheet.HeaderRowMeaning | Modules/Task2/Task2.Core/ExcelCore.cs:151-176 | the header row is the first row (1-based) with at least three non-blank cells, or 1 when no row has three |
| Spreadsheet.DetectHeaderRow | Modules/Task2/Task2.Core/ExcelCore.cs:151-176 | the nested scan with its early return computes the header-row specification |
| Spreadsheet.ColumnNameMeaning | Modules/Task2/Task2.Core/ExcelCore.cs:112-114 | a column name is never blank, a non-blank header is kept as is, and distinct blank columns get distinct generated names |
| Spreadsheet.Columns | Modules/Task2/Task2.Core/ExcelCore.cs:110-117 | one name per column |
| Spreadsheet.ReadColumns | Modules/Task2/Task2.Core/ExcelCore.cs:110-117 | the header loop names every cell of the header row |
| Spreadsheet.AllEmpty | Modules/Task2/Task2.Core/ExcelCore.cs:130-138 | true exactly when every cell of the row is blank |
| Spreadsheet.NonEmptyRowsMeaning | Modules/Task2/Task2.Core/ExcelCore.cs:120-142 | the kept rows are exactly the rows with a non-blank cell, and there are no more of them than rows |
| Spreadsheet.ReadRows | Modules/Task2/Task2.Core/ExcelCore.cs:120-142 | the data loop keeps, in order, the rows below the header that have a non-blank cell |
| Spreadsheet.SheetModelMeaning | Modules/Task2/Task2.Core/ExcelCore.cs:100-144 | a sheet keeps its name, has one non-blank name per column, and its rows are exactly the non-blank rows below the header, each one column wide per column |
| Spreadsheet.ReadSheet | Modules/Task2/Task2.Core/ExcelCore.cs:100-144 | one sheet's reading computes its sheet model |
| Spreadsheet.ModelsMeaning | Modules/Task2/Task2.Core/ExcelCore.cs:94-145 | sheets without a used range are skipped and the others are modelled in workbook order |
| Spreadsheet.ReadSpreadsheet | Modules/Task2/Task2.Core/ExcelCore.cs:85-149 | a missing file is the file-not-found error naming the path; otherwise the path with the models of the sheets |
| Spreadsheet.FilterMeaning | Modules/Task2/Task2.Core/ExcelCore.cs:73 | the kept files are exactly those that pass the test, and none is added |
| Spreadsheet.OrderByNameMeaning | Modules/Task2/Task2.Core/ExcelCore.cs:74 | the ordering is sorted by file name and is a permutation of its input |
| Spreadsheet.ScanMeaning | Modules/Task2/Task2.Core/ExcelCore.cs:65-78 | a blank or missing folder gives nothing; otherwise exactly the files with extension .xlsx or .xls (ignoring case), sorted by file name |
| WindowsPath.Extension | Modules/Task2/Task2.Core/ExcelCore.cs:73 | the extension is empty or a suffix of the path that starts with its only dot and holds no separator |
| WindowsPath.FileName | Modules/Task2/Task2.Core/ExcelCore.cs:74 | the file name is a suffix of the path holding no directory separator |
| WindowsPath.FileNameAfterLastSeparator | Modules/Task2/Task2.Core/ExcelCore.cs:74 | the file name is everything after the last directory separator: it is the whole path, or a separator stands just before it |
| WindowsPath.FileNameOfCombined | Modules/Sync.Console/Program.cs:247-262 | the file name of a directory combined with a separator-free name is that name |
| FolderSync.MarkMeaning | Modules/Sync.Console/Program.cs:200-228 | after marking p, a path is marked exactly when it was before or equals p ignoring case; an empty path is never marked |
| FolderSync.UnmarkMeaning | Modules/Sync.Console/Program.cs:215-243 | after unmarking p, a path is marked exactly when it was before and does not equal p ignoring case |
| FolderSync.MarkThenUnmark | Modules/Sync.Console/Program.cs:200-243 | marking then unmarking a path leaves the set as unmarking alone does, which only removes entries |
| FolderSync.TemporaryNames | Modules/Sync.Console/Program.cs:256-257 | names starting with "~$" or ending in ".tmp" in any case are temporary, and upper-casing keeps a name temporary |
| FolderSync.IgnoredEntry | Modules/Sync.Console/Program.cs:245-263 | an entry's full path is ignored exactly when it is marked as an internal change or the entry's own name is temporary |
| FolderSync.FolderSynchronizer.constructor | Modules/Sync.Console/Program.cs:9-21 | a synchronizer over the two roots and trees, with no marks and the initial sync not yet done |
| FolderSync.FolderSynchronizer.MarkInternalChange | Modules/Sync.Console/Program.cs:200-213 | the mark set gains the path's case-folded key, or is unchanged for an empty path |
| FolderSync.FolderSynchronizer.UnmarkInternalChange | Modules/Sync.Console/Program.cs:230-243 | the mark set loses the path's case-folded key, or is unchanged for an empty path |
| FolderSync.FolderSynchronizer.ShouldIgnore | Modules/Sync.Console/Program.cs:245-263 | the answer is the ignore predicate: marked, or a temporary file name |
| FolderSync.FolderSynchronizer.CreateDirectory | Modules/Sync.Console/Program.cs:271 | succeeds exactly when no file stands on the path or above it (as at lines 353, 409 and 423 too); then the path and its missing ancestors become directories, otherwise nothing changes |
| FolderSync.FolderSynchronizer.Attempt | Modules/Sync.Console/Program.cs:418-460 | one attempt: on success the target receives the source file's content, otherwise the replica is unchanged; the target is unmarked afterwards |
| FolderSync.FolderSynchronizer.CopyFileWithRetry | Modules/Sync.Console/Program.cs:414-480 | the loop's outcome, attempt count and new replica are those of the retry specification; the target ends unmarked, or the marks are untouched when its folder cannot be created |
| FolderSync.FolderSynchronizer.DeleteFile | Modules/Sync.Console/Program.cs:482-493 | the file's entry is removed and nothing else |
| FolderSync.FolderSynchronizer.DeleteDirectory | Modules/Sync.Console/Program.cs:495-506 | the directory and everything below it are removed and nothing else |
| FolderSync.FolderSynchronizer.CopyFiles | Modules/Sync.Console/Program.cs:273-280 | every source file of the folder is copied through the retry logic, and only those paths change |
| FolderSync.FolderSynchronizer.SyncSubdirectories | Modules/Sync.Console/Program.cs:282-289 | every source subfolder is synchronised recursively, and only paths below them change |
| FolderSync.FolderSynchronizer.DeleteExtraFiles | Modules/Sync.Console/Program.cs:291-301 | every replica file of the folder missing from the source is removed, and nothing else |
| FolderSync.FolderSynchronizer.DeleteExtraDirectories | Modules/Sync.Console/Program.cs:303-313 | every replica subfolder missing from the source is removed with its contents, and nothing else |
| FolderSync.FolderSynchronizer.Reconcile | Modules/Sync.Console/Program.cs:273-313 | the four passes change nothing outside the folder and, without file/directory clashes and with every copy going through, leave the folder a mirror of the source |
| FolderSync.FolderSynchronizer.SynchronizeFolders | Modules/Sync.Console/Program.cs:267-319 | the recursive reconcile only removes marks and changes nothing outside the folder; without file/directory clashes and with every copy going through, every path below the folder ends with the source's entry and no other entry remains |
| FolderSync.FolderSynchronizer.InitialSync | Modules/Sync.Console/Program.cs:123-128 | the flag is set after the first full synchronisation, whose replica equals the source under the same conditions |
| FolderSync.FolderSynchronizer.OnFileChanged | Modules/Sync.Console/Program.cs:321-335 | ignored paths change nothing; otherwise an existing source file is copied with retry; no mark is added |
| FolderSync.FolderSynchronizer.OnFileCreated | Modules/Sync.Console/Program.cs:337-356 | ignored paths change nothing; a created file is copied with retry and a created directory is created in the replica; no mark is added |
| FolderSync.FolderSynchronizer.OnFileDeleted | Modules/Sync.Console/Program.cs:358-376 | ignored paths change nothing; otherwise the replica file, or else the replica directory with its contents, is removed |
| FolderSync.FolderSynchronizer.OnFileRenamed | Modules/Sync.Console/Program.cs:378-412 | skipped only when both names are ignored; otherwise the old entry is deleted, then the new file is copied or the new directory created; no mark is added |
| FolderSync.FolderSynchronizer.HandleEvent | Modules/Sync.Console/Program.cs:166-196 | before the initial sync an event changes neither the replica nor the marks; afterwards it has its handler's effect; no mark is ever added |
| FolderSync.FolderSynchronizer.DeleteEntry | Modules/Sync.Console/Program.cs:393-401 | the replica's file at the path is deleted, or else its directory with everything below it; nothing else changes |
| FolderSync.FolderSynchronizer.OnFileRenamedCorrected | Modules/Sync.Console/Program.cs:378-412 | the rename handler with the directory case fixed: a renamed file behaves as before, and a renamed directory is mirrored with its contents; outside the old and new paths every entry is kept, and the only entries added are directories on the new path's parent; no mark is added |
| FolderSync.FolderSynchronizer.SyncRenamedDirectory | Modules/Sync.Console/Program.cs:407-411 | creating the parent folder and synchronising the renamed directory mirrors it under the same conditions as the full sync; outside the directory every entry is kept and only the parent's missing folders are added; no mark is added |
| SyncTree.WithDirectoriesMeaning | Modules/Sync.Console/Program.cs:271 | creating a directory adds it and its missing ancestors as directories and changes no existing entry |
| SyncTree.WithDirectoriesExisting | Modules/Sync.Console/Program.cs:271 | creating an existing directory changes nothing |
| SyncTree.RemoveTreeShaped | Modules/Sync.Console/Program.cs:499 | removing a directory recursively leaves a well-formed tree |
| SyncTree.Retry | Modules/Sync.Console/Program.cs:416-479 | the attempt count stays within 1..5 and success means the last attempt copied |
| SyncTree.RetryMeaning | Modules/Sync.Console/Program.cs:461-478 | every attempt before the last was refused as in use; an unsuccessful copy stopped on another error or after the fifth attempt |
| SyncTree.RetrySucceeds | Modules/Sync.Console/Program.cs:416-460 | a source file with no directory in its way is copied when its attempts succeed |
| SyncTree.CopyMeaning | Modules/Sync.Console/Program.cs:414-480 | a copy keeps the tree well formed, writes the source content when it succeeds, keeps every other entry and only adds the target's parent directories |
| SyncTree.CopySucceeds | Modules/Sync.Console/Program.cs:420-449 | the copy succeeds when the source file exists, its parent folder can be created in the replica, no directory stands on the target, and one of the five attempts copies the file with only in-use answers before it |
| SyncTree.DeletedMeaning | Modules/Sync.Console/Program.cs:358-376 | after a delete nothing at or below the path remains and everything else is untouched |
| SyncTree.CreatedMeaning | Modules/Sync.Console/Program.cs:337-356 | a created directory exists in the replica when it can be created; a created file holds the source content when its copy succeeds |
| SyncTree.RenamedMeaning | Modules/Sync.Console/Program.cs:378-412 | a rename removes everything at and below the old path and then acts as a create of the new path |
| SyncTree.RenamedKeepsOthers | Modules/Sync.Console/Program.cs:378-412 | a rename keeps every replica entry that lies neither at or below the old path nor at or below the new one |
| SyncTree.AddedAbove | Modules/Sync.Console/Program.cs:337-356 | a create adds entries only at the path or above it |
| SyncTree.MirroredEverywhere | Modules/Sync.Console/Program.cs:126 | a mirror at the root means the replica equals the source |
| SyncTree.RenamedDirectoryLosesContents | Modules/Sync.Console/Program.cs:397-411 | renaming folder "old" holding a.txt to "new" leaves the replica with an empty "new": the file is lost |
| SyncTree.PassResult | Modules/Sync.Console/Program.cs:273-313 | the copy, recurse and two delete passes change nothing outside the folder and, under the same conditions, mirror it |
| SyncTree.CreateBlocked | Modules/Sync.Console/Program.cs:271 | when a folder cannot be created, a source directory clashes with a replica file on its path |
| Text.Trim | Modules/Task4/Task4.Core/MazeCore.cs:146 | String.Trim: the result is empty exactly for a blank string and otherwise starts and ends with a non-white-space character |
| Text.Split | Modules/Task4/Task4.Core/MazeCore.cs:140 | String.Split before empty entries are removed: at least one piece |
| Text.NonEmpty | Modules/Task4/Task4.Core/MazeCore.cs:140 | RemoveEmptyEntries: no more pieces than before, none of them empty |
| Text.SplitJoin | Modules/Task4/Task4.Core/MazeCore.cs:120-140 | splitting separator-free pieces joined by a separator gives the pieces back |
| Text.NatToString | Modules/Task4/Task4.Core/MazeCore.cs:111 | Int32.ToString of a non-negative value: decimal digits without a leading zero |
| Text.ParseInt32 | Modules/Task4/Task4.Core/MazeCore.cs:188 | Int32.TryParse: an optional sign, decimal digits and any trailing NUL characters; a parsed value lies in the Int32 range |
| Text.ParseInt32TrailingNul | Modules/Task4/Task4.Core/MazeCore.cs:188 | a NUL appended after a token never changes whether or how Int32.TryParse reads it |
| Text.ParseNatToString | Modules/Task4/Task4.Core/MazeCore.cs:111-188 | a non-negative Int32 written out (line 111) parses back to itself (line 188) |

## Left out

- Console input and output are not modelled:
  - the `Main` loops of the encryptor, synchroniser and file manager;
  - reading and writing the encrypted file;
  - all messages.

  Error cases are datatype values without their message text.
- Base64Cipher is left out. It is a thin wrapper over the library's UTF-8 encoding and Base64 conversion.
- The permutation key is taken as a sequence of integers. Parsing it from space-separated text with `int.Parse` is not modelled.
- The file manager's command handlers are left out because they are file-system I/O: `help`, `exit`, `pwd`, `ls`, `cd`, `mkdir` and `touch`. The current directory is a parameter of `ResolvePath`.
- The workbook library is replaced by each worksheet's used range, given as a grid of cell strings. The folder listing is given as a sequence of paths, and whether the file or folder exists is given as a flag.
- Each random pick of the maze generator is an arbitrary choice among the allowed values (`:|`). The properties proved hold for every choice.
- Synchronizer events that the watcher would raise are not modelled:
  - `FileSystemWatcher` itself;
  - threads, `lock` and `Thread.Sleep`;
  - events raised by the synchronizer's own writes.

  Events are supplied one at a time, so nothing runs concurrently.
- Synchronizer paths are simplified:
  - `Path.GetFullPath` and `Path.GetRelativePath` are not modelled;
  - an entry is named by its path relative to each root;
  - its full path is the root and the names joined by a backslash.
- Synchronizer file operations are simplified:
  - deletions always succeed;
  - a copy either writes the whole file or nothing, so partial copies after an I/O error are not modelled;
  - the outcome of each copy attempt is a supplied function of path and attempt number (copied, in use by another process, or another error).
- Letter classification is limited to Latin and Russian letters: `char.IsLetter`, `IsUpper`, `ToUpper` and `ToLower` in the ciphers. Letters of other scripts are treated as non-letters.
- The `ru-RU` lower-casing of direction commands covers ASCII letters, the Cyrillic capitals, the dotted capital I and the Kelvin sign. Other scripts' capitals are left as they are; they cannot lower to a direction word anyway.
- `OrdinalIgnoreCase` comparisons fold ASCII letters only. This applies to the synchronizer's marks and ignore filter, the file manager's command lookup and the Excel extension filter.
- Coordinates and grid sizes are unbounded integers. The Int32 range matters only for parsed cell values, Caesar shifts and negation, and there it is modelled.
- The maze generator's "too small" exceptions and the path finder's failed dictionary lookups are not modelled. Clamping the size and the breadth-first search make them unreachable.
- Null arguments are not modelled, because the types exclude them: `ArgumentNullException` in the maze services, the colour parser's null check other than `ParseHex`'s, and the colour mixer's null list.
- MazeGenerator.Generate: does not state that the carved maze is connected or a perfect maze; the source does not promise it, and only choice-independent facts are proved.
- FolderSync.FolderSynchronizer.SynchronizeFolders: the mirror is proved only when no path is a file on one side and a directory on the other, and every copy goes through. Otherwise only the frame and the mark set are stated, because the source swallows those failures.
- FolderSync.FolderSynchronizer.Reconcile: the same conditions as SynchronizeFolders.
- FolderSync.FolderSynchronizer.InitialSync: replica equals source only under the same conditions as SynchronizeFolders.
- FolderSync.FolderSynchronizer.SyncRenamedDirectory: the same conditions as SynchronizeFolders, and additionally the parent folder must be creatable.
- FolderSync.FolderSynchronizer.OnFileRenamedCorrected: the same conditions as SyncRenamedDirectory, taken in the replica after the old entry is deleted.
- Synchronizer entry names are compared as on a case-sensitive file system. Windows compares them ignoring case, and so do `File.Exists`, `Directory.Exists` and `File.Open`. The model therefore differs when the source and the replica hold the same name in different case:
  - a source file "X" and a replica folder "x": the program fails to open the folder, then deletes it, so the replica ends empty; the model replaces the folder with the file;
  - a source file "A.txt" and a replica file "a.txt": the program overwrites "a.txt" and keeps that name; the model writes "A.txt" and deletes "a.txt".

  Only the marks and the temporary-name filter fold case.
- ShiftCiphers.CaesarRoundTrip: the round trip of the cipher as written is proved for Latin text only, with shifts in -26..26. A Russian letter counts as a letter but is moved by the Latin formula, so Russian text does not come back (see "## Findings"); `CaesarCorrectedRoundTrip` covers every text.
- ShiftCiphers.VigenereRoundTrip: the round trip of the cipher as written is proved for Latin text and a Latin key only, for the same reason; `VigenereCorrectedRoundTrip` covers every text and every non-empty key.
- ShiftCiphers.CaesarPreservesCase: stated for Latin text only; a Russian letter leaves its alphabet under the formula as written.
- ShiftCiphers.VigenereKeepsLetters: stated for shifts in -26..26 only; larger key shifts can move a letter out of the alphabet.
- WindowsPath.FileName: does not treat the drive colon as a separator. .NET's `Path.GetFileName("C:name")` returns "name", while the model returns the whole path. Both call sites are unaffected: synchronizer paths are joined with backslashes, and the spreadsheet listing's paths all start with the same folder prefix, so comparing the whole paths orders them as comparing the names after that prefix does.
- Spreadsheet.OrderByNameMeaning: orders file names by ordinal character comparison; `OrderBy` with the default string comparer is culture-sensitive. Stability among equal names is not stated.
- Spreadsheet.NonEmptyRowsMeaning: states membership and count only. The order of the kept rows follows from the definition that `ReadRows` is proved against.

## Findings

| source | as written | input that shows it | evidently intended | confidence | as-written member | corrected member |
|---|---|---|---|---|---|---|
| Modules/Encryptor.Console/Program.cs:277-278 | the shifted letter offset is reduced with C#'s truncating remainder after adding 26, which stays non-negative only for shifts of -26 and above | Caesar shift -27 on "a" gives "`", a non-letter that decryption leaves unchanged | the letter rotated with a Euclidean remainder modulo 26, so Latin text round-trips for every shift except Int32.MinValue, whose 32-bit negation is itself | high, not executed | ShiftCiphers.CaesarShiftBelowRange | ShiftCiphers.CaesarCorrectedRoundTrip |
| Modules/Encryptor.Console/Program.cs:108-113 | the key check admits any letter, yet a key letter's shift (line 314) is its code minus 'A', which is far outside 0..25 for Cyrillic letters | Vigenère key "Ж": "b" encrypts to "u", which decrypts to "H" | each letter rotated modulo its alphabet's size, so every accepted key round-trips | high, not executed | ShiftCiphers.VigenereRussianKey | ShiftCiphers.VigenereCorrectedRoundTrip |
| Modules/Encryptor.Console/Program.cs:274-278 | Russian letters pass `char.IsLetter`, but the offset from 'A' or 'a' and the remainder modulo 26 put them into the Latin alphabet | Caesar shift 0 on "Ж" gives "T", which decryption leaves as "T" | Russian letters rotated within the 33-letter Russian alphabet, so Russian text round-trips | high, not executed | ShiftCiphers.CaesarRussianText | ShiftCiphers.CaesarCorrectedRoundTrip |
| Modules/Encryptor.Console/Program.cs:311-318 | the Vigenère step applies the same Latin formula to Russian letters | key "A": "Ж" encrypts to "T", which decrypts to "T" | Russian letters rotated within their own alphabet, so Russian text round-trips with every key | high, not executed | ShiftCiphers.VigenereRussianText | ShiftCiphers.VigenereCorrectedRoundTrip |
| Modules/Sync.Console/Program.cs:397-411 | on a directory rename the old replica folder is deleted with its contents and the new one is created empty | rename source folder "old" holding "a.txt" to "new": the replica ends with an empty "new" | the renamed directory mirrored with its contents | high, not executed | SyncTree.RenamedDirectoryLosesContents | FolderSync.FolderSynchronizer.OnFileRenamedCorrected |
| Modules/Encryptor.Console/Program.cs:462-468 | a trailing partial block is padded with spaces in the block buffer, but only output positions inside the text are written, so a character the key moves to a padding position is dropped | key 3 1 2: "ab" encrypts to " a", which decrypts to "a " | the text padded to whole blocks before the transform, so every text round-trips | high, not executed | PermutationCipher.PartialBlockLost | PermutationCipher.PaddedRoundTrip |
