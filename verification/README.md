# Learn-By-Games server logic in Dafny

This project models the deterministic logic in `main.cpp`, the Crow web server behind the
Learn-By-Games mini-games:

- **Tech grid** (`POST /api/tech/run`). A tractor starts at (0,0) on the fixed field
  `{{0,0,0},{1,1,0},{0,0,3}}` and follows integer commands: 0 moves up, 1 down, 2 left and
  3 right. It stops with `CRASH` when it leaves the field or lands on a wall (1), and with
  `WIN` when it lands on the goal (3). If neither happens it reports `Lost`. The module is
  `TechGrid`.
- **Question file loader** (`load_csv_database`). Each line is split with `std::getline(…, ',')`
  semantics (`CsvSplit`) and needs at least seven fields. The seventh field goes through
  `std::stoi` (`IntParse`), and the line becomes a `QuizQuestion` filed under its subject or is
  skipped (`CsvRow`). The subject → questions `std::map` is an association list kept in key
  order, filled by `push_back` (`QuestionTable`).
- **Question service** (`GET /api/get_question`). It serves a question of the requested
  subject, or of a random subject when that one is unknown (`QuestionPick`).
- **Shopping sum** (`GET /api/math/problem`). It picks a price in 10..49 and a quantity in
  1..5, and the answer is their product (`MathShop`).

Every `rand()` result is an explicit natural-number parameter. The server's JSON requests and
replies become datatypes.

## Model

| member | source | states |
|---|---|---|
| TechGrid.ToCInt | main.cpp:167 | `int m = cmd.i()` keeps the low 32 bits: the result is a 32-bit `int` congruent to the JSON value modulo 2^32, and values already in range are unchanged |
| TechGrid.Judge | main.cpp:164-170 | the bounds test short-circuits before `grid[r][c]` is read; a landing wins exactly at (2,2), is open exactly on the six listed open cells, and crashes exactly outside the field or on the two walls of row 1 |
| TechGrid.Run | main.cpp:162-172 | the handler's loop (mutable `r`, `c`, `break`) gives the same status as the recursive walk, and every read of the layout is in bounds |
| TechGrid.TechRun | main.cpp:163-173 | the reply status is always one of "Lost", "CRASH" or "WIN", and it is "Lost" when `commands` is absent or empty |
| TechGrid.WalkSplit | main.cpp:169-170 | once the walk has crashed or won, no later command changes the outcome; a walk still going continues from the cell the earlier commands reached |
| TechGrid.WalkByTrail | main.cpp:166-171 | `Walk`, the command loop taken one command at a time, is characterised by the unstopped trail of landings: CRASH iff the first non-open landing is blocked, WIN iff it is the goal, "Lost" iff every landing is open |
| TechGrid.IdleCommandIgnored | main.cpp:168 | a command outside 0..3, inserted anywhere in a walk from an open cell, does not change the outcome |
| TechGrid.WinMeansGoalReached | main.cpp:164-170 | a WIN outcome means some command landed the tractor on (2,2) |
| IntParse.Stoi | main.cpp:57 | a result is always a 32-bit `int`; a text with no digit is rejected |
| IntParse.StoiReads | main.cpp:57 | every text made of white space, an optional `+` or `-`, at least one digit and a tail not starting with a digit is read as the signed value of those digits, or rejected when that value does not fit in an `int` |
| IntParse.StoiAccepts | main.cpp:57 | conversely, every text `stoi` accepts has that shape, and its value is the one its sign and digits spell |
| IntParse.StoiShow | main.cpp:57 | `stoi` reads back any written integer with leading white space and non-digit trailing text; it gives the number when it fits in an `int` and rejects it otherwise |
| CsvSplit.Fields | main.cpp:40-46 | the fields contain no comma, and there are none exactly when the line is empty |
| CsvSplit.FieldsRejoin | main.cpp:44-46 | joining the fields with commas gives back the line, minus one final comma if the line ends with one; so an empty last field is dropped and empty middle fields are kept |
| CsvSplit.SplitJoinWithComma | main.cpp:44-46 | splitting comma-free fields joined with a final comma gives back every field, empty ones included |
| CsvSplit.SplitJoin | main.cpp:44-46 | splitting comma-free fields joined without a final comma gives them back when the last field is not empty |
| CsvRow.ParseLine | main.cpp:49-59 | a line is accepted iff it has at least seven fields and the seventh passes `stoi`; an accepted question has exactly four options and a 32-bit index that is not range-checked |
| CsvRow.ParseFields | main.cpp:44-58 | a line of comma-free fields (with or without a final comma, when the last field is not empty) is accepted iff `stoi` accepts the seventh field, and then gives subject `f[0]`, question `f[1]`, options `f[2..6]` in order and the index `stoi` read, whatever white space, sign, leading zeros or trailing text the seventh field has |
| CsvRow.ParseCarriageReturn | main.cpp:39-57 | a line ending in `\r`, as a CRLF file gives, is still read with its index, because `stoi` stops before the `\r` |
| CsvRow.ParseWrittenLine | main.cpp:48-58 | a row written as `subject,question,opt1..opt4,index[,extra…]` parses back to that subject, question, options in order and index; extra columns are ignored |
| QuestionTable.PushBackKeys | main.cpp:58 | `database[s].push_back(q)` adds `s` to the keys and no other key |
| QuestionTable.PushBackLookup | main.cpp:58 | `PushBack`, which models `database[subject].push_back(q)` on a table in key order, appends `q` to the end of `s`'s list (starting from an empty list for a new subject), and every other subject's list is unchanged |
| QuestionTable.PushBackOrdered | main.cpp:24 | the push keeps the map's keys in strictly increasing `std::string` order, as `std::map` does, so the k-th entry from `begin()` is the k-th smallest key |
| QuestionTable.PushBackValid | main.cpp:54-58 | the push keeps the map ordered, keeps every list non-empty and keeps every question at four options |
| QuestionTable.LessTotal | main.cpp:24 | the key order is total: of two different strings, one is below the other |
| QuestionTable.LessTransitive | main.cpp:24 | the key order is transitive |
| QuestionTable.LookupNonEmpty | main.cpp:110-111 | when every list is non-empty, as in every table built by pushes, the list looked up for any key is non-empty, so `rand() % list.size()` never takes a remainder by zero |
| QuestionTable.LoadDatabase | main.cpp:39-61 | the loaded keys are exactly the subjects of the accepted lines; each subject holds exactly its accepted questions in file order; every list is non-empty |
| QuestionPick.GetQuestion | main.cpp:97-119 | given a table as loading leaves it (key order, non-empty lists, four options), the database-empty error happens iff the table is empty; a known subject is served itself, and an unknown one is replaced by the `subjectDraw mod size`-th key; the question is `indexDraw mod n` of a non-empty list, with four options |
| QuestionPick.ServedFromRow | main.cpp:95-120 | whatever the draws, a served question, with its subject, options and answer index, is exactly one of the rows the table was loaded from |
| MathShop.MakeProblem | main.cpp:129-139 | price is in 10..49, quantity in 1..5, the item is one of the five listed, and the answer is price × quantity, so it lies in 10..245 |
| MathShop.EveryProblemPossible | main.cpp:132-134 | every price, quantity and item in range comes from some draws |

## Left out

- Crow routing, page rendering with `mustache` and `app.port(8080).multithreaded().run()` are
  server plumbing. Handlers share the table only for reading after startup.
- Opening and reading `questions.csv` is file I/O. The model takes the file's lines as a
  sequence. A missing file leaves the table empty, the same as loading no lines.
- `srand(time(0))` and `rand()` are randomness. Each draw is a natural-number parameter,
  which is only ever used modulo a range.
- The physics shot handler (main.cpp:141-155) is floating-point trigonometry.
- `crow::json` parsing is left out. So are the 400 reply for a body that is not JSON and a
  `commands` value that is not an array. Commands are taken as a sequence of JSON integers.
- TechGrid.ToCInt: JSON integers outside the 64-bit range that `cmd.i()` can return are not
  modelled.
- A request to `/api/get_question` without a `subject` parameter builds a `std::string` from a
  null pointer. The model always takes a subject string.
