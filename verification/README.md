# Design-pattern demos, modelled in Dafny

This project models the parts of a C# catalogue of Gang-of-Four design-pattern
demos that hold data-dependent logic. Each pattern is one Dafny module, in a
file of the same name. `Wrappers.dfy` holds the shared `Option` and `Result`
types.

- **Behavioural patterns**
  - The chain of support handlers (`ChainOfResponsibility`).
  - The pilots' communication mediator (`Mediator`).
  - The weather-station observer list (`Observer`).
  - The traffic-light state machine (`TrafficLight`).
  - The editor's memento history (`Memento`).
  - The book iterator (`Iterator`).
  - The `a + b` expression interpreter (`Interpreter`).
- **Structural patterns**
  - The character flyweight factory (`Flyweight`).
  - The message decorators (`Decorator`).
  - The XML-to-JSON adapter (`Adapter`).
  - The graphic composite (`Composite`).
- **Creational patterns**
  - The government singleton (`Singleton`).
  - The shape prototypes (`Prototype`).

Objects are immutable datatypes, and operations are pure functions that
return the new state. Most console output becomes a returned trace of events; the
exceptions are listed in the Left out section below.
Where object identity matters, it is modelled explicitly, as follows.

- **Chain of Responsibility.** Handlers live in a store keyed by handler id.
- **Flyweight and Prototype.** Objects live in an allocation log, and a
  reference is a position in that log.
- **Mediator.** A participant carries a tag that stands for its identity.
- **Singleton.** The static field is a state value threaded through the
  calls, together with a count of constructor runs.

Some C# semantics are written out in the model:

- 32-bit wrap-around of unchecked `int` addition.
- `string.Split(' ')`, which keeps empty pieces.
- `string.Replace(pat, "")`, which scans left to right and does not
  overlap occurrences.
- `List.Remove`, which removes only the first occurrence.
- The exceptions raised by list and array indexers and by `int.Parse`. They become
  `Err` values.

The model follows what the code does in these places:

- `Handle` returns nothing. A caller cannot tell whether any handler acted.
- The mediator has no way to unregister a participant. A later
  registration under the same id replaces the earlier one.
- An exception thrown by one recipient is not isolated. It would stop the
  rest of the delivery.
- Notification iterates the live observer list, not a snapshot of it.
- Registering the same observer twice is accepted. That observer is then
  notified twice.
- The comment at Structural/Flyweight.cs:5 promises one shared character
  per symbol "of a given size". The code at lines 31-38 keys the cache on
  the symbol alone. A later request with another size gets the object
  created with the first size (`Flyweight.ServeKeepsFirstSize`).

## Model

| member | source | states |
|---|---|---|
| ChainOfResponsibility.Accepts | Behavioural/ChainOfResponsibility.cs:29-65 | the general handler takes every request; the technical handler takes only "Technical" and the billing handler only "Billing" |
| ChainOfResponsibility.SetNext | Behavioural/ChainOfResponsibility.cs:20-24 | installs `n` as the successor of `h` and returns `n`, so calls chain; every other handler and the handler's own kind are untouched, and a store whose links all resolve keeps that property |
| ChainOfResponsibility.Handle | Behavioural/ChainOfResponsibility.cs:31-64 | a handler acts iff it accepts the request (Technical only "Technical", Billing only "Billing", General everything); a non-accepting handler with no successor drops the request; whoever acts accepts the request and was not visited before |
| ChainOfResponsibility.Walk | Behavioural/ChainOfResponsibility.cs:37-40 | the path of handlers a request is forwarded along starts at the first handler and stays inside the store |
| ChainOfResponsibility.WalkIsSimple | Behavioural/ChainOfResponsibility.cs:37-40 | the forwarding path never revisits a handler |
| ChainOfResponsibility.HandleFollowsWalk | Behavioural/ChainOfResponsibility.cs:31-64 | on any chain, a handler acts iff some handler on the path accepts, and the one that acts is the first acceptor on the path, so at most one handler acts and acting stops propagation; otherwise the request is dropped at the end of the path, or the chain loops back on itself and forwarding never ends |
| ChainOfResponsibility.Route | Behavioural/ChainOfResponsibility.cs:31-64 | offering a request to a chain's head: a handler acts iff some handler on the forwarding path accepts, and the one that acts is the first acceptor; otherwise the request is dropped at the end of the path, or circles forever when the path loops back |
| ChainOfResponsibility.SupportChain | Behavioural/ChainOfResponsibility.cs:72-76 | `technical.SetNext(billing).SetNext(general)` links technical to billing to general, and general has no successor |
| ChainOfResponsibility.ProcessRequest | Behavioural/ChainOfResponsibility.cs:69-79 | exactly one handler acts: the technical one iff the request is "Technical", the billing one iff it is "Billing", the general one otherwise |
| ChainOfResponsibility.ProcessRequestScenario | Program.cs:13-16 | "Technical", "Billing" and "Unknown" reach the technical, billing and general handlers |
| Mediator.AddUser | CSharp/Behavioural/Mediator.cs:21-24 | the user is registered under its id and replaces any earlier user with that id (last write wins): the size grows by one for a new id and is unchanged for an existing one, and other entries are kept |
| Mediator.Recipients | CSharp/Behavioural/Mediator.cs:28-33 | the set of users a send reaches is exactly the registered users whose id differs from the sender's; an unregistered sender reaches every user, and an empty registry reaches nobody |
| Mediator.ReceiversAppend | CSharp/Behavioural/Mediator.cs:32 | one more delivery adds exactly its recipient |
| Mediator.SkipSender | CSharp/Behavioural/Mediator.cs:30 | meeting the sender's own id in the key enumeration delivers nothing |
| Mediator.DeliverTo | CSharp/Behavioural/Mediator.cs:30-32 | meeting any other id delivers the message once to the user registered under it |
| Mediator.SendMessage | CSharp/Behavioural/Mediator.cs:26-35 | whatever order the dictionary enumerates its keys in, the message goes unchanged to exactly the users other than the sender, each exactly once |
| Mediator.Send | CSharp/Behavioural/Mediator.cs:59-63 | a pilot sends with its own id, so it reaches every other registered user with the message unchanged and never receives its own message |
| Mediator.ReplacedParticipantIsSilenced | CSharp/Behavioural/Mediator.cs:23 | a participant replaced by a later registration under the same id receives no later message; its successor does |
| Mediator.ThreePilotsScenario | Program.cs:50-63 | with pilots 1, 2 and 3 registered, a message from pilot 1 reaches exactly pilots 2 and 3 |
| Observer.NewWeatherData | Behavioural/Observer.cs:36-39 | a new subject has no observers |
| Observer.RegisterObserver | Behavioural/Observer.cs:41-44 | appends the observer at the end, duplicates included, and leaves the stored measurements alone |
| Observer.RemoveFirst | Behavioural/Observer.cs:48 | `List.Remove` leaves a list without the observer unchanged and otherwise shortens it by one |
| Observer.RemoveFirstSplices | Behavioural/Observer.cs:48 | it is exactly the first occurrence that is cut out |
| Observer.RemoveFirstMultiset | Behavioural/Observer.cs:48 | exactly one occurrence is removed, if there is one |
| Observer.RemoveObserver | Behavioural/Observer.cs:46-49 | removes one registration of the observer, is a no-op for an absent observer, and leaves the measurements alone |
| Observer.RemoveUndoesRegister | Behavioural/Observer.cs:41-49 | registering an observer that was absent and then removing it restores the list |
| Observer.NotifyObservers | Behavioural/Observer.cs:51-57 | one update per list entry, in list order, each carrying the same stored triple |
| Observer.SetMeasurements | Behavioural/Observer.cs:64-70 | stores all three values before notifying, so every observer in the unchanged list receives the new triple |
| Observer.WeatherStationScenario | Program.cs:88-94 | one registered display receives (80, 65, 30.4) once |
| TrafficLight.Next | Behavioural/State.cs:13-42 | each state's `Change` installs a different state |
| TrafficLight.Text | Behavioural/State.cs:18-47 | each state's report is a sentence starting "Traffic light is " and ending with a full stop |
| TrafficLight.Create | Behavioural/State.cs:55-58 | the constructor's state is the current state |
| TrafficLight.ChangeState | Behavioural/State.cs:13-68 | Green goes to Yellow, Yellow to Red, Red to Green, and the state always changes |
| TrafficLight.ReportState | Behavioural/State.cs:70-73 | reporting leaves the light as it was |
| TrafficLight.ReportIdentifiesState | Behavioural/State.cs:18-47 | two reports are equal iff the states are equal |
| TrafficLight.ThreeChangesReturn | Behavioural/State.cs:13-42 | three changes bring any state back, and one or two do not |
| TrafficLight.ChangesAreCyclic | Behavioural/State.cs:65-68 | the light cycles with period three, so no state is terminal |
| TrafficLight.ChangeTimesAdd | Behavioural/State.cs:65-68 | m changes followed by n changes are m + n changes |
| TrafficLight.Rounds | Behavioural/State.cs:65-73 | n rounds of report-then-change give n reports, and report i names the state the light is in after i changes |
| TrafficLight.DriverReportsAllColours | Program.cs:100-109 | starting from green, the reports read green, yellow, red |
| Memento.SetContent | CSharp/Behavioural/Memento.cs:23 | the content setter stores the text |
| Memento.CreateMemento | CSharp/Behavioural/Memento.cs:25-28 | the snapshot holds the editor's current content |
| Memento.RestoreMemento | CSharp/Behavioural/Memento.cs:30-33 | the editor takes the snapshot's content, so a new snapshot of it equals the one restored |
| Memento.SnapshotRoundTrip | CSharp/Behavioural/Memento.cs:25-33 | restoring a snapshot of an editor yields that editor, and a snapshot of an editor restored from a memento is that memento |
| Memento.SaveState | CSharp/Behavioural/Memento.cs:41-44 | pushes a snapshot of the current content on top and leaves the editor unchanged |
| Memento.RestoreState | CSharp/Behavioural/Memento.cs:46-52 | on a non-empty history, pops the newest snapshot and sets the content from it; on an empty one, changes neither |
| Memento.SaveEditRestore | CSharp/Behavioural/Memento.cs:41-52 | save, any edit, then restore gives back the saved editor and the history as it was before the save |
| Memento.EditorScenario | Program.cs:67-84 | after saving "Text 1" and "Text 2" and setting "Text 3", restores give "Text 2" and then "Text 1" |
| Iterator.Count | CSharp/Behavioural/Iterator.cs:30 | the number of books, zero exactly when the collection is empty |
| Iterator.IsDone | CSharp/Behavioural/Iterator.cs:70 | the iterator is done exactly when reading the current index would throw |
| Iterator.AddBook | CSharp/Behavioural/Iterator.cs:20-23 | appends: the count grows by one, earlier indices keep their books, and the new book is last |
| Iterator.Item | CSharp/Behavioural/Iterator.cs:31 | the indexer returns the book at an index in range and throws otherwise |
| Iterator.CreateIterator | CSharp/Behavioural/Iterator.cs:49-53 | a new iterator starts at index 0 |
| Iterator.First | CSharp/Behavioural/Iterator.cs:55-59 | resets the index to 0 and returns the first book; on an empty collection it throws |
| Iterator.Next | CSharp/Behavioural/Iterator.cs:61-68 | advances by one, then returns the book at the new index, or null once done |
| Iterator.CurrentItem | CSharp/Behavioural/Iterator.cs:72 | the book at the current index, or the exception once done |
| Iterator.Traverse | Program.cs:43-46 | the First/IsDone/Next loop yields every book once, in insertion order, and fails exactly on an empty collection |
| Iterator.LibraryScenario | Program.cs:36-46 | the three books come out in the order they were added |
| Flyweight.NewFactory | Structural/Flyweight.cs:29 | a new factory caches nothing |
| Flyweight.GetCharacter | Structural/Flyweight.cs:31-38 | the first request for a symbol allocates exactly one character, with that symbol and size, caches it under the symbol and returns it; a later request returns the cached object and changes nothing; in both cases the returned object is the one cached for the symbol; the returned symbol is the key; cached entries are never replaced or removed |
| Flyweight.SameSymbolSameObject | Structural/Flyweight.cs:33-37 | two requests for one symbol, with any sizes, return the identical object |
| Flyweight.Serve | Structural/Flyweight.cs:31-38 | any run of requests keeps every cached object's symbol equal to its key |
| Flyweight.SymbolsAppend | Structural/Flyweight.cs:31-38 | one more request adds its symbol to the requested symbols |
| Flyweight.ServeCachesRequestedSymbols | Structural/Flyweight.cs:33-36 | after any run of requests the cache holds exactly the symbols requested |
| Flyweight.ServeAllocatesOncePerSymbol | Structural/Flyweight.cs:33-36 | exactly one object is created per distinct symbol |
| Flyweight.FirstRequestSurvivesAppend | Structural/Flyweight.cs:33 | a first request stays first when more requests follow |
| Flyweight.NewSymbolTakesLastSize | Structural/Flyweight.cs:33-35 | a symbol first requested last is cached with that request's size |
| Flyweight.ServeKeepsFirstSize | Structural/Flyweight.cs:29-37 | the cached object for a symbol has the size of the first request for it, whatever sizes later requests ask for |
| Decorator.Unwrap | CSharp/Structural/Decorator.cs:45-52 | helper (the inverse the decorator lemmas are stated with, not code of its own): stripping a known prefix and suffix succeeds iff both are present and gives back the text between them |
| Decorator.PlainContents | CSharp/Structural/Decorator.cs:19-37 | a text message's content is its constructor argument, and the base decorator passes the inner content through |
| Decorator.WrappingRoundTrip | CSharp/Structural/Decorator.cs:45-52 | encryption adds exactly 11 characters and HTML exactly 26, and stripping the fixed text recovers the wrapped content |
| Decorator.WrappingIsInjective | CSharp/Structural/Decorator.cs:45-52 | equal decorated contents of one kind come from equal inner contents |
| Decorator.Content | CSharp/Structural/Decorator.cs:19-52 | any chain of decorators composes inside out: its content is the core text between the decorators' openings and closings, 11 characters longer per encryption layer and 26 per HTML layer |
| Decorator.EncryptedGreeting | Program.cs:244-248 | the driver's encrypted message reads "Encrypted(Hello, World!)" |
| Decorator.HTMLGreeting | Program.cs:244-251 | the driver's HTML message wraps the text in the HTML body |
| Decorator.NestedGreeting | CSharp/Structural/Decorator.cs:45-52 | HTML around encryption nests the encryption inside the HTML |
| Interpreter.Wrap | Behavioural/Interpreter.cs:46 | unchecked `int` arithmetic keeps sums that fit unchanged |
| Interpreter.WrapPeriodic | Behavioural/Interpreter.cs:46 | wrapping forgets whole multiples of 2^32 |
| Interpreter.DivModUnique | Behavioural/Interpreter.cs:46 | helper (arithmetic, no source logic of its own): Euclidean remainders by 2^32 are unique |
| Interpreter.WrapAdd | Behavioural/Interpreter.cs:46 | wrapping the operands first does not change the wrapped sum |
| Interpreter.Interpret | Behavioural/Interpreter.cs:27-47 | any Number/Add tree evaluates to the sum of its leaves wrapped once into 32 bits, and to the exact sum when that fits |
| Interpreter.AdditionOverflows | Behavioural/Interpreter.cs:44-47 | `int.MaxValue + 1` wraps to `int.MinValue` |
| Interpreter.Split | Behavioural/Interpreter.cs:56 | `Split(' ')` yields at least one piece and no piece holds a space |
| Interpreter.SplitJoin | Behavioural/Interpreter.cs:56 | joining the pieces with single spaces gives back the text |
| Interpreter.SplitNoSpace | Behavioural/Interpreter.cs:56 | a text without spaces is one piece |
| Interpreter.SplitFirstPiece | Behavioural/Interpreter.cs:56 | a space-free first piece followed by a space splits off first |
| Interpreter.ParseInt | Behavioural/Interpreter.cs:57-58 | `int.Parse` fails iff the text is not a numeral (format error) or its value does not fit in an `int` (overflow), and otherwise returns that value |
| Interpreter.Digits | Behavioural/Interpreter.cs:57-58 | a decimal rendering is non-empty and all digits |
| Interpreter.DigitsRoundTrip | Behavioural/Interpreter.cs:57-58 | reading back the digits of n yields n |
| Interpreter.DigitsAreBare | Behavioural/Interpreter.cs:56-58 | a string of digits has no sign and no space |
| Interpreter.ParseFormat | Behavioural/Interpreter.cs:57-58 | `int.Parse` inverts formatting of any `int` |
| Interpreter.Evaluate | Behavioural/Interpreter.cs:53-62 | succeeds iff piece 0 parses, there are at least three pieces, and piece 2 parses; a bad piece 0 gives its parse error, then too few pieces gives the index error, then a bad piece 2 gives its parse error; the result is the 32-bit sum of pieces 0 and 2 |
| Interpreter.SplitThree | Behavioural/Interpreter.cs:56 | three space-free pieces and anything after a further space split into those three pieces first |
| Interpreter.EvaluateAddsFirstAndThird | Behavioural/Interpreter.cs:53-62 | for any two `int`s, any operator token and any trailing pieces, the result is the 32-bit sum of the two numbers, so the operator and the trailing pieces are ignored |
| Interpreter.DriverExpression | Program.cs:31-32 | "5 + 10" is 15, and so is "5 * 10" |
| Interpreter.EvaluateTooFewPieces | Behavioural/Interpreter.cs:58 | a single piece makes reading piece 2 throw |
| Interpreter.EvaluateBadFirstPiece | Behavioural/Interpreter.cs:57 | a non-numeral first piece throws a format error |
| Interpreter.EvaluateRejectsThirdPiece | Behavioural/Interpreter.cs:58 | for any first operand and operator, whatever error parsing the third piece raises is the error of the whole evaluation |
| Interpreter.EvaluateBadThirdPiece | Behavioural/Interpreter.cs:58 | a non-numeral third piece throws a format error |
| Interpreter.EvaluateOverflowingThirdPiece | Behavioural/Interpreter.cs:58 | a third piece beyond `int.MaxValue` throws an overflow error |
| Interpreter.ParseTwoTo31 | Behavioural/Interpreter.cs:58 | 2147483648 does not parse as an `int` |
| Interpreter.Digits2147483648 | Behavioural/Interpreter.cs:58 | helper for the overflow case: the digits of 2^31 have that value |
| Adapter.RemoveAll | CSharp/Structural/Adapter.cs:44 | deleting occurrences never lengthens the text |
| Adapter.GetJson | CSharp/Structural/Adapter.cs:40-45 | the output always begins with `{ 'data': '` and ends with `' }`, and is no longer than the XML plus that fixed text |
| Adapter.OccursFrontOrTail | CSharp/Structural/Adapter.cs:44 | helper (string fact): an occurrence is at the front or in the tail |
| Adapter.TooShortToOccur | CSharp/Structural/Adapter.cs:44 | helper (string fact): a text shorter than the pattern does not contain it |
| Adapter.RemoveAllFixedPoint | CSharp/Structural/Adapter.cs:44 | `Replace(pat, "")` leaves a text unchanged iff the text does not contain `pat`, and otherwise shortens it |
| Adapter.RemoveLeading | CSharp/Structural/Adapter.cs:44 | a leading occurrence is deleted and scanning resumes after it |
| Adapter.NoStraddle | CSharp/Structural/Adapter.cs:44 | helper: when `a` is pattern-free and non-empty and the first character of `b` does not recur in the pattern after its first position, the pattern does not occur at index 0 of `a + b` |
| Adapter.RemoveAllClearPrefix | CSharp/Structural/Adapter.cs:44 | a pattern-free prefix `a` passes through deletion unchanged, `RemoveAll(a + b) == a + RemoveAll(b)`, provided `b` is non-empty and its first character does not recur in the pattern after its first position (without that condition an occurrence can straddle the join) |
| Adapter.MissingFirstCharacter | CSharp/Structural/Adapter.cs:44 | helper (string fact): a text lacking the pattern's first character lacks the pattern |
| Adapter.CloseTagLacksOpenTag | CSharp/Structural/Adapter.cs:44 | `</data>` does not contain `<data>` |
| Adapter.TagFreeXmlIsQuoted | CSharp/Structural/Adapter.cs:40-45 | XML containing neither tag comes out unchanged between the quotes |
| Adapter.WrappedTextIsQuoted | CSharp/Structural/Adapter.cs:40-45 | for `<data>X</data>` with X free of both tags, the JSON value is exactly X |
| Adapter.RemovalCanExposeTag | CSharp/Structural/Adapter.cs:44 | deletion is a single pass: deleting `<data>` from `<da<data>ta>` leaves `<data>` |
| Adapter.LegacyTextHasNoTags | CSharp/Structural/Adapter.cs:20 | the legacy text holds neither tag |
| Adapter.LegacyJson | CSharp/Structural/Adapter.cs:18-21 | the legacy XML comes out as `{ 'data': 'Hello from XML' }` |
| Singleton.GetInstance | Creational/Singleton.cs:21-28 | the first call creates the instance with the given name; every later call returns that same instance and changes nothing; the constructor runs at most once |
| Singleton.GetInstances | Creational/Singleton.cs:21-28 | any run of calls returns one object per call and keeps the constructor count at most one |
| Singleton.LaterCallsReturnTheInstance | Creational/Singleton.cs:23-27 | once the instance exists, every later call returns it and the static state never changes again |
| Singleton.OneInstanceFirstNameWins | Creational/Singleton.cs:12-28 | from the start, any run of calls constructs exactly one object, returns it every time, and its president is the first call's name |
| Singleton.DriverScenario | Program.cs:201-206 | the call with "Jane Smith" still yields the government of "John Doe" |
| Prototype.Allocate | Creational/Prototype.cs:20-23 | allocation adds one new object after all existing ones and changes none of them |
| Prototype.NewCircle | Creational/Prototype.cs:20-23 | a new circle with the given radius |
| Prototype.NewRectangle | Creational/Prototype.cs:41-45 | a new rectangle with the given width and height |
| Prototype.Clone | Creational/Prototype.cs:25-50 | a clone is a new object, distinct from the original and every other, equal to the original field by field, of the same kind, and no existing object changes |
| Prototype.SetRadius | Creational/Prototype.cs:18 | the radius setter changes only that circle's radius |
| Prototype.SetWidth | Creational/Prototype.cs:38 | the width setter changes only that rectangle's width |
| Prototype.SetHeight | Creational/Prototype.cs:39 | the height setter changes only that rectangle's height |
| Prototype.CloneCircleIsIndependent | Creational/Prototype.cs:25-28 | setting a cloned circle's radius leaves the original and every other object as they were |
| Prototype.CloneRectangleIsIndependent | Creational/Prototype.cs:47-50 | setting a cloned rectangle's dimensions leaves the original and every other object as they were |
| Prototype.DriverScenario | Program.cs:184-198 | the originals keep radius 10 and size 5 x 7 while their copies become 20 and 10 x 14 |
| Composite.NewGroup | CSharp/Structural/Composite.cs:46 | a new group has no children and no leaves |
| Composite.Add | CSharp/Structural/Composite.cs:48-51 | appends the child at the end and keeps the existing children |
| Composite.Leaves | CSharp/Structural/Composite.cs:17-41 | the leaves of a graphic are circles and rectangles |
| Composite.HeadersAppend | CSharp/Structural/Composite.cs:61-68 | stripping and counting group headers distribute over concatenation |
| Composite.Move | CSharp/Structural/Composite.cs:19-59 | moving any graphic moves each leaf exactly once, depth first and left to right, all to the same (x, y), and groups write nothing |
| Composite.MoveEach | CSharp/Structural/Composite.cs:53-59 | the same for a group's list of children |
| Composite.Draw | CSharp/Structural/Composite.cs:24-68 | drawing any graphic writes one header per group and, apart from headers, draws each leaf exactly once, depth first and left to right |
| Composite.DrawEach | CSharp/Structural/Composite.cs:61-68 | the same for a group's list of children |
| Composite.GroupDrawStartsWithHeader | CSharp/Structural/Composite.cs:61-64 | a group writes its header before anything its children write |
| Composite.EmptyGroupWork | CSharp/Structural/Composite.cs:53-68 | an empty group draws only its header and moves nothing |
| Composite.MoveEachAppend | CSharp/Structural/Composite.cs:53-59 | children's moves concatenate across concatenated child lists |
| Composite.DrawEachAppend | CSharp/Structural/Composite.cs:61-68 | children's draw lines concatenate across concatenated child lists |
| Composite.LeavesEachAppend | CSharp/Structural/Composite.cs:48-51 | children's leaves concatenate across concatenated child lists |
| Composite.AddAppendsWork | CSharp/Structural/Composite.cs:48-68 | adding a graphic to a group appends that graphic's moves, draw lines and leaves after the group's existing ones |
| Composite.DriverScenario | Program.cs:232-241 | a group of a circle then a rectangle draws header, circle, rectangle, and moves both to (1, 2) |

## Left out

- Console output is not modelled as text. Most operations return the
  events they would print (handler acting, delivery, update, move, draw).
  The traffic light's report text is what `ReportState` returns instead of
  printing it. The formatting of the floats in the observer display is
  left out.
- Mediator.Send: the sender's own console line ("{Id}: Sending Message:
  {message}") is not part of the returned trace. The trace holds only the
  deliveries to the recipients.
- Observer measurements are a type parameter. No arithmetic is done on
  them, so C#'s `float` is never modelled.
- Changing the observer list from inside an `Update` call during
  `foreach` is not modelled. In .NET that throws at run time.
- Interpreter.ParseInt: accepts only an optional `-` followed by decimal
  digits. It does not model `int.Parse`'s culture, leading and trailing
  white space, `+` sign or other number styles.
- Interpreter.Evaluate: a null expression string, which would throw, is
  not modelled. Strings are values here.
- Iterator.Next: the index is an unbounded natural number. A 32-bit
  `_currentIndex` could only overflow after 2^31 calls.
- Composite.Add: a group is a value, so aliasing is not modelled. In C#,
  a group changed after it was added to a parent shows the change through
  that parent. Here the parent keeps the copy it was given. Sharing one
  group between parents, and a group containing itself, are not modelled
  either. In C#, a group containing itself makes `Move` and `Draw` recurse
  without end.
- ChainOfResponsibility.Handle: a chain that loops back on itself is
  reported as the `Diverges` outcome. C# recurses until the stack
  overflows.
- Mediator.SendMessage: the order in which `Dictionary` enumerates its
  keys is unspecified. The method picks the next key arbitrarily and
  states only what holds for every order.
- Singleton.GetInstance: thread safety and the static lifetime of the
  instance are not modelled. The code is single-threaded and
  unsynchronised.
- Strings are sequences of Dafny `char`, which cannot hold a UTF-16
  surrogate code unit (0xD800 to 0xDFFF). A C# `char` can. So a lone
  surrogate cannot appear in any modelled input: the key of
  `Flyweight.GetCharacter`, or the text given to `Split`, `Replace` or
  `Content`.
- C# `int` fields that see no arithmetic are unbounded Dafny `int`: the
  flyweight's size, the prototype's radius, width and height, and the
  composite's x and y. Only the interpreter adds, so only it models 32-bit
  `int` (`Interpreter.Int32` with explicit wrap-around).
- Left out because they hold no data-dependent logic; they only forward to
  the console or return constant strings:
  - Behavioural/TemplateMethod.cs
  - CSharp/Behavioural/Strategy.cs
  - CSharp/Behavioural/Command.cs
  - CSharp/Structural/Facade.cs
  - Structural/Bridge.cs
  - CSharp/Structural/Proxy.cs
  - CSharp/Creational/FactoryMethod.cs
  - CSharp/Creational/Abstract.cs
  - CSharp/Creational/Builder.cs
  - Behavioural/Visitor.cs (it prints a fixed, input-free trace)
