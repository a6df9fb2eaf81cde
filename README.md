# Runner, modelled in Dafny

Runner is a small 2D runner game. A level is a text file in a tiny world definition language:

```
Unit is (32, 32)
Player at (2, 5) with initial speed of 8px
Wall at (0, 8) of size (40, 1)
```

The model covers the four pieces between that text and a running level, and the two helpers they use:

- **The lexer** (module `Tokenizer`, with the word classifier in module `Tokens`). It works in five steps:
  - it removes spaces inside parentheses with a depth counter;
  - it splits the text into lines and drops blank lines and `#` comments;
  - it splits lines into words;
  - it merges the fixed phrases `with initial speed of` → `wiso` and `of size` → `ofsize`;
  - it classifies each word: a keyword, a vector literal `(x,y)`, or a scalar literal `N` / `Npx`, using a per-character automaton.

  Errors: an unknown token, an unknown unit, or a panic. A panic happens on an `unwrap` of a failed integer parse, on an underflow in the phrase merger, or when a line starts with a non-ASCII character, whose first byte the line filter slices off a character boundary.
- **The interpreter** (module `Interpreter`). A finite-state machine over the tokens:
  - it keeps a unit-scale vector and the object being declared;
  - it adds every completed object to a new world;
  - it returns the first syntax error with the token it got and the tokens it expected.
- **Objects** (module `Objects`). An object holds position, size, speed, kind (Player / Wall / Spike), grounding, liveness, rotation and a trail of at most 30 centre points. As values, objects have a constructor, by-value builder setters, a per-tick physics step and a collision response. These are the functions `Updated` and `Collided`. The class `Object` is the entity a world stores and changes in place.
- **The world** (module `Worlds`). An ordered list of objects and a `playing` flag. One tick takes each index `i` in increasing order, collides object `i` with every later object (each seen as it was before the tick), then updates object `i`. `playing` ends true exactly when some Player is alive after its own update.
- **Animations** (module `Animations`). A frame counter with a countdown. The frame advances once every `sustain + 1` updates, and either wraps around (looped) or stays on the last frame.
- **The resource cache** (module `Resources`). It maps paths to shared texture handles and loads on a miss. Only paths whose text after the last `.` (the whole path when it has no dot) is `png`, in any case, are accepted. The texture loader is a function parameter.

Floating-point quantities are modelled as `real`. The token literals are Rust `i32` and the animation counters are `u32`, each a `newtype` over its range.

Each imperative routine of the source is a Dafny `method` proved against a specification function:
- `Tokenizer.Tokenize` against `Tokenized`;
- `Tokenizer.Collapse` against `Collapsed`;
- `Tokens.TokenFrom` against `FromWord`;
- `Interpreter.Interpret` against `Interpreted`;
- `Worlds.World.Update` against `Tick`;
- `Objects.Object.Update` and `Objects.Object.Collide` against `Updated` and `Collided`.

The lemmas prove what the game relies on about those functions.

## Model

| member | source | states |
|---|---|---|
| Tokenizer.StripLiteralSpaces | src/game/world/tokenizer.rs:157-166 | the depth-counter loop computes `Stripped(source)` |
| Tokenizer.StrippedKeepsNonSpace | src/game/world/tokenizer.rs:158-166 | stripping keeps every non-space character, in order |
| Tokenizer.StrippedDepth | src/game/world/tokenizer.rs:161-162 | stripping keeps the parenthesis depth of the text |
| Tokenizer.StrippedHasNoInnerSpace | src/game/world/tokenizer.rs:163-165 | after stripping, a space occurs only at depth 0, including a negative depth after a stray `)` that has returned to 0 |
| Tokenizer.NoInnerSpaceFixed | src/game/world/tokenizer.rs:163-165 | a text with no spaces at nonzero depth is left unchanged |
| Tokenizer.StrippedKeepsOuterSpace | src/game/world/tokenizer.rs:158-166 | the spaces that survive stripping are exactly those read at depth 0, so the output is the input minus the spaces at nonzero depth |
| Tokenizer.StrippedIdempotent | src/game/world/tokenizer.rs:157-166 | stripping twice is the same as stripping once |
| Tokenizer.JoinSplit | src/game/world/tokenizer.rs:169-174 | splitting on a separator and joining back gives the text |
| Tokenizer.SplitAvoidsSeparator | src/game/world/tokenizer.rs:169-174 | no piece of a split contains the separator |
| Tokenizer.SplitCount | src/game/world/tokenizer.rs:169-174 | a split has one piece more than the separator's occurrences |
| Tokenizer.NonEmpty | src/game/world/tokenizer.rs:177-180 | the filter keeps only nonempty words, each one taken from its input, and never lengthens the list |
| Tokenizer.NonEmptyKeeps | src/game/world/tokenizer.rs:177-180 | the filter keeps every nonempty word and drops every empty one, in order: it distributes over concatenation, and its result is the input's multiset of words with the empty word removed |
| Tokenizer.FragmentsAvoidSeparators | src/game/world/tokenizer.rs:169-174 | splitting newline-free lines on spaces gives words without spaces or newlines |
| Tokenizer.WordsAreWords | src/game/world/tokenizer.rs:169-180 | every word of the word list is nonempty and holds neither a space nor a newline |
| Tokenizer.CollapsedLength | src/game/world/tokenizer.rs:197-221 | the phrase merger never lengthens the word list, and keeps at least two words out of two or more |
| Tokenizer.ExpandCollapsed | src/game/world/tokenizer.rs:197-221 | when the replacement word does not already occur, expanding every replacement back into the phrase restores the input |
| Tokenizer.CollapsedKeepsLast | src/game/world/tokenizer.rs:200-218 | the last word is always copied as it is |
| Tokenizer.CollapsedTail | src/game/world/tokenizer.rs:201-216 | no window is tested over the last words that the phrase would fill, which are copied unchanged |
| Tokenizer.TrailingPhraseSurvives | src/game/world/tokenizer.rs:197-221 | for any words before it, a phrase that ends the word list is still the end of the merged list, because the last window is never tested (line 201) and no earlier match can reach into it; this needs only that the phrase's first word does not recur in the phrase |
| Tokenizer.PhrasesHaveFreshHeads | src/game/world/tokenizer.rs:183-184 | `with initial speed of` and `of size` each have a first word that does not recur in them, so `Tokenizer.TrailingPhraseSurvives` applies to both |
| Tokenizer.TrailingPhraseKept | src/game/world/tokenizer.rs:201 | when no earlier word can start the phrase, a phrase that ends the word list leaves the whole list unchanged |
| Tokenizer.CollapsedSkip | src/game/world/tokenizer.rs:211-212 | words that cannot start the phrase are copied in order |
| Tokenizer.PhraseConfluence | src/game/world/tokenizer.rs:208-210 | a matching window becomes one replacement word, the scan resumes after it, and merging leaves an existing replacement in the same position |
| Tokenizer.CollapsedAround | src/game/world/tokenizer.rs:200-218 | words before the phrase, then the replacement, then the merged rest |
| Tokenizer.PhraseAt | src/game/world/tokenizer.rs:202-207 | the window loop reports a match exactly when the phrase starts at `i` |
| Tokenizer.PhraseStartsSlice | src/game/world/tokenizer.rs:202-207 | the word-by-word phrase test holds exactly when the window of words starting at `i` equals the phrase |
| Tokenizer.Collapse | src/game/world/tokenizer.rs:197-221 | the greedy left-to-right loop computes `Collapsed` |
| Tokenizer.TokensOfMeaning | src/game/world/tokenizer.rs:187-191 | on success, one token per word in order, then the end-of-file token; otherwise the outcome of the first word that fails, after words that all succeed |
| Tokenizer.ClassifyAll | src/game/world/tokenizer.rs:187-193 | the classification loop computes `TokensOf` |
| Tokenizer.TokenizedEndsOnce | src/game/world/tokenizer.rs:187-193 | a successful tokenization ends with the end-of-file token, which occurs nowhere else |
| Tokenizer.TokenizedNeverUnexpectedEOF | src/game/world/tokenizer.rs:130-145 | tokenization never reports an unexpected end of word |
| Tokenizer.Tokenize | src/game/world/tokenizer.rs:154-194 | the imperative pipeline computes `Tokenized`, including the panic of the first merge on one to three words and the panic of a line starting with a non-ASCII character |
| Tokens.ParseI32 | src/game/world/tokenizer.rs:75-141 | on the buffers the automaton hands it, which hold only digits, `parse::<i32>` succeeds exactly on a nonempty string whose value fits, and yields that value. A leading sign, which `parse` would also accept, never reaches it |
| Tokens.DecimalValue | src/game/world/tokenizer.rs:99-115 | reading back a printed natural number gives the number |
| Tokens.ScanFromAppend | src/game/world/tokenizer.rs:61-128 | running the automaton over `u + v` is running it over `u`, then over `v` |
| Tokens.ScanFromStops | src/game/world/tokenizer.rs:61-128 | an error or a panic ends the run |
| Tokens.ScanRejectsAsUnknown | src/game/world/tokenizer.rs:61-128 | the only error the automaton reports is the unknown word |
| Tokens.DoneRejects | src/game/world/tokenizer.rs:126 | nothing may follow a completed literal |
| Tokens.NotKeyword | src/game/world/tokenizer.rs:44-57 | a word that is not a keyword is classified by the automaton |
| Tokens.StepNewline | src/game/world/tokenizer.rs:95-125 | every accepted newline transition reaches `Done` |
| Tokens.NeverUnexpectedEOF | src/game/world/tokenizer.rs:57-132 | no word makes the classifier report an unexpected end of word |
| Tokens.ScalarWord | src/game/world/tokenizer.rs:99-141 | a bare digit group is `Scalar(n, Default)`, or a panic when it does not fit in an `i32` |
| Tokens.SuffixedWord | src/game/world/tokenizer.rs:99-141 | digits then `px` give `Scalar(n, Pixel)`, digits then `p` then another suffix give `UnknownUnit` of that suffix, and a number too large panics |
| Tokens.ScalarStray | src/game/world/tokenizer.rs:99-115 | digits followed by a character other than a digit, `p` or a newline give `UnknownToken` of the word |
| Tokens.VectorWord | src/game/world/tokenizer.rs:66-132 | `(a,b)` is `Vector(a, b)`. Trailing characters give `UnknownToken`. An empty or oversized group panics, the first group being read first |
| Tokens.VectorInterrupted | src/game/world/tokenizer.rs:75-84 | a sign or any other non-digit, non-comma character in the first group gives `UnknownToken` |
| Tokens.VectorSecondInterrupted | src/game/world/tokenizer.rs:85-94 | in the second group, a sign, a second comma or any other character that is not a digit or `)` gives `UnknownToken`, or a panic when the first group does not parse |
| Tokens.VectorUnclosed | src/game/world/tokenizer.rs:85-94 | an unterminated `(a,b` gives `UnknownToken`, or a panic when `a` does not parse |
| Tokens.OtherWord | src/game/world/tokenizer.rs:66-74 | a non-keyword that starts with neither `(` nor a digit gives `UnknownToken` |
| Tokens.KeywordTokens | src/game/world/tokenizer.rs:45-51 | the fixed words map to their fixed tokens, and the three kind names map to `Kind` tokens |
| Tokens.FromWordNotEndOfFile | src/game/world/tokenizer.rs:44-148 | no word stands for the end-of-file token, and a literal is a vector or a scalar |
| Tokens.VectorRoundTrip | src/game/world/tokenizer.rs:66-98 | printing a pair of non-negative numbers as `(x,y)` and classifying the word gives `Vector(x, y)` |
| Tokens.ScalarRoundTrip | src/game/world/tokenizer.rs:99-125 | printing a non-negative number, bare or with `px`, and classifying it gives that scalar |
| Tokens.ScanChar | src/game/world/tokenizer.rs:62-127 | the body of the per-character loop (push, then match) performs one automaton transition, with an error, a panic or the next state |
| Tokens.ScanLiteral | src/game/world/tokenizer.rs:57-145 | the per-character loop and the final match compute `Literal` |
| Tokens.TokenFrom | src/game/world/tokenizer.rs:44-148 | `Token::from` computes `FromWord` |
| Interpreter.StepErrorsAsWritten | src/game/world/interpretor.rs:41-120 | a failing transition names the token it got and a nonempty list of expected tokens. The list does not contain the token, except after `Unit is`, where it is `[Is]`. After the end, only the end-of-file token is expected |
| Interpreter.StepErrors | src/game/world/interpretor.rs:41-120 | with the intended transition, a failing transition names the token it got and a nonempty list of expected tokens that never contains it, except after the end, where only the end-of-file token is expected |
| Interpreter.StepsAgree | src/game/world/interpretor.rs:66-69 | the transition as written and the intended one agree everywhere, except for the expected list after `Unit is` |
| Interpreter.AsWrittenListsOffender | src/game/world/interpretor.rs:66-69 | as written, the unit definition state rejects `Is` and lists `Is` as what it expected, so the token list `Unit`, `Is`, `Is` fails that way; the intended transition lists the vector |
| Interpreter.RunStops | src/game/world/interpretor.rs:37-122 | once a prefix of the tokens fails, the whole list fails with the same error |
| Interpreter.RunAppend | src/game/world/interpretor.rs:37-122 | one more token continues the run from where it was, unless the run has already failed |
| Interpreter.ErrorPinpoints | src/game/world/interpretor.rs:37-122 | a syntax error names a token of the input, and every token before it was accepted |
| Interpreter.StepCommits | src/game/world/interpretor.rs:71-91 | a transition only appends the pending object, declares one object per `Kind` token and keeps every object pristine |
| Interpreter.RunCommits | src/game/world/interpretor.rs:37-122 | the committed and pending objects are exactly the `Kind` tokens' kinds, in order, all pristine |
| Interpreter.TerminatedLevel | src/game/world/interpretor.rs:75-124 | a run ending in the end-of-file token that succeeds is in `Done`, and its world holds one object per `Kind` token, in order, at least one |
| Interpreter.LoadedLevel | src/game/world/interpretor.rs:32-125 | the world interpreted from a tokenized text holds one object per object keyword, in order, at least one, each alive and pristine |
| Interpreter.AcceptsUnfinished | src/game/world/interpretor.rs:37-124 | an empty list and a list that stops inside a declaration are accepted, dropping the open object. `EndOfFile` in the initial state is an error listing `Unit`, `Spike` and `Wall` |
| Interpreter.UnitOnlyAtTop | src/game/world/interpretor.rs:41-91 | a `Unit` token is accepted exactly in the initial state |
| Interpreter.UnitStatesPrecedeObjects | src/game/world/interpretor.rs:41-70 | while the machine is in a unit state, no object has been declared |
| Interpreter.NothingAfterEnd | src/game/world/interpretor.rs:120 | any token after `Done` is an error expecting `EndOfFile` |
| Interpreter.TopLevel | src/game/world/interpretor.rs:41-70 | after any run in the initial state, `Unit is (x,y)` replaces the unit by `(x,y)` and returns to the initial state, and a kind opens a new object of that kind |
| Interpreter.PlaceClause | src/game/world/interpretor.rs:72-93 | in any declaration under any unit `u`, `at (x,y)` sets the size to `u` and the position to `(x * u.x, y * u.y)`, and nothing else |
| Interpreter.SizeClause | src/game/world/interpretor.rs:73-102 | in any declaration under any unit `u`, `of size (x,y)` sets the size to `(x * u.x, y * u.y)`, and nothing else |
| Interpreter.SpeedClause | src/game/world/interpretor.rs:74-111 | in any declaration under any unit `u`, a speed `n` gives `(n * u.x, 0)` and a speed `npx` gives `(n, 0)`, and nothing else changes |
| Interpreter.BareDeclaration | src/game/world/interpretor.rs:75-82 | in any declaration, the next kind appends the open object to the world and opens a new one, and the end of file appends it and ends; an object without clauses is at the origin, 30×30 and at rest |
| Interpreter.DeclarationsRun | src/game/world/interpretor.rs:71-91 | after an open declaration, a list of declarations and the end of file commit the open object, then every declared object in order, and reach `Done` |
| Interpreter.LevelAccepted | src/game/world/interpretor.rs:32-125 | every token list of the level grammar (unit declarations, then object declarations with any clauses, then the end of file) with at least one object is accepted, and its world is the declared objects in order, each built by its clauses under the last unit; with no object, it fails at the end of file |
| Interpreter.Interpret | src/game/world/interpretor.rs:32-125 | the token loop, with the transitions as written, builds a new playing world whose objects are `Interpreted(tokens)`, or returns its first error |
| Objects.ObjectState.WithPosition | src/game/object.rs:88-91 | the setter replaces the position and nothing else |
| Objects.ObjectState.WithSize | src/game/object.rs:93-96 | the setter replaces the size and nothing else |
| Objects.ObjectState.WithSpeed | src/game/object.rs:98-101 | the setter replaces the speed and nothing else |
| Objects.ObjectState.WithKind | src/game/object.rs:103-106 | the setter replaces the kind and nothing else |
| Objects.KindNamed | src/game/object.rs:23-38 | `Spike` and `Player` name their kinds and every other word names a Wall. A Player starts Jumping, with its jump clip on frame 0 |
| Objects.New | src/game/object.rs:75-86 | a new object is at the origin, 30×30, at rest, a living Wall, not grounded, upright, with an empty trail |
| Objects.BoxContains | src/game/object.rs:255-260 | the inclusive point-in-box test contains the box's corners and centre, nothing left of, above, right of or below it, and is unchanged when box and point move together |
| Objects.FromKind | src/game/object.rs:58-62 | an object of a kind is a new object with that kind |
| Objects.UpdatedPhysics | src/game/object.rs:110-152 | the trail gains the centre before the move and keeps at most 30 entries. The position advances by the old speed. Non-Players keep their speed. A dead Player falls, slows to 0.95 and is Dying. A living Player falls, then Runs with its clip rewound and rotation 0 when grounded, or Jumps and spins by 0.2 in the air. It always ends ungrounded |
| Objects.CollisionResponse | src/game/object.rs:154-201 | only a Player whose predicted box overlaps the other acts. It lands on a wall whose top is at or below its bottom, and dies on any other wall hit, snapped left or below. It dies against a spike exactly when a triangle corner is inside its predicted box, stopping dead |
| Objects.Object.Update | src/game/object.rs:110-152 | the in-place update leaves the object in state `Updated` of its old state |
| Objects.Object.Collide | src/game/object.rs:154-201 | the in-place collision leaves the object in state `Collided` of its old state and the other's, excluding the unimplemented Player–Player case |
| Worlds.CollideAll | src/game/world.rs:61-64 | colliding with a run of objects keeps kind, size, trail and rotation, never changes a non-Player and never revives |
| Worlds.TickAt | src/game/world.rs:59-66 | object `i` after the tick is its update after colliding in order with the objects after it, as those were before the tick |
| Worlds.PlayingUpToIff | src/game/world.rs:57-75 | the accumulated flag holds exactly when some object seen so far is a living Player |
| Worlds.TickKeepsShape | src/game/world.rs:55-78 | a tick keeps the number of objects, every kind tag and size, the trail bound and the speed of non-Players, and does not revive the dead |
| Worlds.TickIgnoresEarlier | src/game/world.rs:61-63 | objects stored before an object have no effect on its tick |
| Worlds.NoRevival | src/game/world.rs:57-75 | once no Player is alive, no later tick is playing |
| Worlds.World.IsPlaying | src/game/world.rs:50 | the query returns the `playing` flag, whose meaning after a tick `Worlds.World.Update` states |
| Worlds.World.constructor | src/game/world.rs:39-48 | a new world is empty and playing |
| Worlds.World.AddObject | src/game/world.rs:91-93 | the object is appended; the others and their order are unchanged |
| Worlds.World.CollideWithLater | src/game/world.rs:61-64 | the inner loop leaves object `i` collided with every later object, in order |
| Worlds.World.UpdateAt | src/game/world.rs:59-76 | step `i` changes only object `i`, to its ticked state, and raises `playing` when it is a living Player |
| Worlds.World.Update | src/game/world.rs:55-78 | a tick leaves the objects in state `Tick` of the old states, and `playing` set to whether some Player is alive |
| Animations.UpdatedInRange | src/game/animation.rs:44-47 | an update of a nonempty animation keeps the frame below `length` |
| Animations.UpdatedSteps | src/game/animation.rs:41-52 | a running countdown is decremented with the frame kept. An expired one advances the frame, wrapping modulo `length` or clamping to `length - 1`, and restarts at `sustain` |
| Animations.UnloopedSettles | src/game/animation.rs:45-47 | a non-looped animation's frame never decreases, and stays on the last frame once there |
| Animations.CountdownDrains | src/game/animation.rs:50-52 | a countdown of `k` takes `k` updates to expire and leaves the frame alone |
| Animations.UpdatedTimesAdd | src/game/animation.rs:39-53 | updates compose: `m + n` updates are `m` updates, then `n` |
| Animations.Period | src/game/animation.rs:39-53 | from an expired countdown, `sustain + 1` updates advance the frame exactly once |
| Animations.LoopedCycle | src/game/animation.rs:41-49 | a looped animation is on frame `k mod length` at the end of its `k`-th period |
| Animations.Animation.constructor | src/game/animation.rs:25-35 | a new animation is on frame 0 with countdown 1 |
| Animations.Animation.Rewind | src/game/animation.rs:37 | rewinding sets the frame to 0 and leaves the countdown |
| Animations.Animation.Update | src/game/animation.rs:39-53 | the in-place update leaves the counters at `Updated` of the old ones, keeping the frame on the sheet |
| Resources.UpperCase | src/game/resource_manager.rs:45-46 | uppercasing maps each character by itself and keeps the length |
| Resources.AfterLastDotIsTail | src/game/resource_manager.rs:38-44 | the extension is a dot-free tail of the path, preceded by a dot unless it is the whole path |
| Resources.ExtensionOf | src/game/resource_manager.rs:38-47 | the extension of `stem.ext` is `ext` uppercased, whatever the stem |
| Resources.ExtensionWithoutDot | src/game/resource_manager.rs:38-47 | a path without a dot is its own extension, uppercased |
| Resources.PngAnyCase | src/game/resource_manager.rs:38-50 | `.png` and `.PNG` both give `PNG`, and `.jpg` gives `JPG` |
| Resources.ResourceManager.constructor | src/game/resource_manager.rs:26-30 | a new cache is empty |
| Resources.ResourceManager.Request | src/game/resource_manager.rs:32-63 | a hit returns the stored handle with the cache unchanged and nothing loaded. A miss on a non-PNG file is `UnknownExtension` of its extension. A failed load is `LoadingError`. A successful load caches a fresh handle for exactly that path and returns it. No entry is ever replaced or removed |

## Findings

| source | as written | input that shows it | evidently intended | confidence | as-written member | corrected member |
|---|---|---|---|---|---|---|
| src/game/world/interpretor.rs:66-69 | after `Unit is`, any token other than a vector is rejected with `Is` as the expected token | the token list `Unit`, `Is`, `Is` given to `interpret`, or the text `Unit is is Wall`, which tokenizes to `Unit`, `Is`, `Is`, `Wall`, end of file: the error lists the offending `Is` as the token it expected | the expected list of that state is the vector it reads, `Vector(0, 0)`, as for the position and size states | not executed | Interpreter.AsWrittenListsOffender | Interpreter.StepErrors |

`Interpreter.Step` is the transition as written, and `Interpreter.Run`, `Interpreter.Interpreted` and `Interpreter.Interpret` use it, so the model returns the error the program returns. `Interpreter.IntendedStep` is the corrected transition, which lists the vector; `Interpreter.StepErrors` proves the intended error property about it, and `Interpreter.StepsAgree` shows the two differ only in that list.

## Left out

- Jump input (src/game/object.rs:130-134). It polls the keyboard and divides by `speed.x`. `Objects.Updated` is the update with no jump key pressed.
- Drawing: every `draw` method, the camera of `World` and its easing (src/game/world.rs:69-74), and the sprite-sheet rectangle of `Animation::draw`.
- `World::from` (src/game/world.rs:30-36). It reads a file and unwraps the results of `tokenize` and `interpret`. `Interpreter.LoadedLevel` states what the composition yields.
- The asynchronous asset loading is not modelled: `ObjectKind::from` and `ObjectKind::player` requesting their sprite sheet, `Animation::new` calling `request(...).await.unwrap()`, `load_texture`, and `set_filter`. A Player's three animations are reduced to its sub-state and the jump clip's frame. `Animations.Animation.constructor` takes the already requested sheet. `Resources.ResourceManager.Request` takes the loader as a parameter.
- Textures are abstract: a width and a height, without pixels.
- The `Tokenizer::tokenize` parameter `rm`, which only feeds `Token::from`'s asynchronous kind lookup, is not modelled.
- The menu UI, the unused model/view prototype, the application loop and the utility trait are outside this model.
- Objects.Object.Collide: the Player-against-Player case is a `todo!` in the source and a precondition here.
- Worlds.World.Update: requires that no Player is stored after another Player. The source panics only when two Players actually overlap; this is the simplest order-based way to exclude that.
- Animations.Animation.Update: requires a nonempty animation when the countdown has expired. With zero frames the source divides by zero (looped) or underflows `length - 1` (not looped).
- Tokenizer.Tokenize: models the `usize` underflow of `collapse` on one to three words as a panic outcome.
- Tokenizer.Tokenize: the line filter slices each line's first byte with `&x[0..1]` (src/game/world/tokenizer.rs:171), which panics when the line starts with a multi-byte character. The model gives `Panic` for any line whose first character is not ASCII (`Tokenizer.Garbled`); characters are not encoded as bytes.
- Tokenizer.StripLiteralSpaces: the depth counter is an unbounded integer, not an `i32`, so a counter overflow after more than 2^31 parentheses is not modelled.
- Resources.UpperCase: uppercases ASCII letters only. `char::to_uppercase` also maps other letters, some to several characters.
- Floating point: positions, sizes, speeds and rotation are reals, so rounding is not modelled. The `i32` to `f32` conversion of coordinates is exact here.
- Interpreter.LevelAccepted: acceptance of a valid level is proved on the token list its grammar produces, not on the level's text through the lexer.
- Design statements that the code does not support, where the model follows the code: the classifier's `UnexpectedEOF` error is never produced (`Tokens.NeverUnexpectedEOF`), `interpret` returns the world whatever state the automaton ends in, so a token list that stops inside a declaration drops that object (`Interpreter.AcceptsUnfinished`). Two more follow the code in `Objects.CollisionResponse` (src/game/object.rs:154-196): a lethal wall hit zeroes at most one speed component, snapping the Player left of or below the wall (none when it comes from neither side), where the design zeroes both; and death is not idempotent, since a dead Player goes on colliding, so a later wall hit can still snap it and zero a speed component.
