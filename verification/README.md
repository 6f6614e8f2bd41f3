# Verification models of the go.net libraries under diego-release

A Dafny project that models the algorithmic core of the Go libraries vendored under
`diego-release/src/code.google.com/p/go.net` and proves what they are for. One module per component:

| files | component |
|---|---|
| `PunycodeSpec`, `PunycodeProofs`, `PunycodeWrap`, `PunycodeRfc`, `Punycode` | Punycode (RFC 3492): an unbounded encoder and decoder, their bijection, what int32 makes of the encoder, what a string means by the RFC, character by character, and the int32 code against them |
| `SuffixRules`, `TextLayout`, `ByteOrder`, `SuffixTable`, `SuffixText`, `SuffixGenerator` | public suffix list: rules, trie, crushed text, packed table, names and words as they are written, lookup |
| `ContextTree`, `ContextRuns`, `ContextSafety`, `ContextPromises`, `ContextProgress`, `ContextErrors` | context cancellation: the sequential operations; a state machine at the grain of lock operations, its invariant, what follows for every run, that every call ends, and which error a context gets |
| `TokenBuffer`, `RawText`, `TokenSpec`, `ScriptText`, `TokenLaws`, `TokenViews`, `Tokenizer` | the HTML tokenizer: its sliding buffer, the end of raw text and of scripts, the tokens as functions of the input and what they hold, and the loops against them |
| `AtomTable`, `AtomGenerator` | cuckoo hashing of HTML atoms, the printed table and its two-slot lookup; the generator from the list of names on |
| `HtmlEscape`, `HtmlReferences` | HTML escaping, in-place unescaping and newline conversion; what references stand for |
| `Dom`, `ParserStacks` | sibling lists of the HTML tree; the stack of open elements and the list of active formatting elements |
| `Icmp` | the ICMP checksum (RFC 1071) |
| `WebSocketFrames`, `WebSocketLayout`, `WebSocket` | WebSocket frames (RFC 6455): their bytes, the layout bit by bit, the reader and the writer |
| `Machine` | fixed-width integers and shared datatypes |

Check everything with `dafny verify dfyconfig.toml --resource-limit 2000000`.

## How the models are built

- Code that updates variables, slices or objects is a method with the source's loops, proved against a function or a
  predicate of its input; what the source promises is then proved about that function. A long loop body is a method of its
  own, and so is each half of a long body.
- A function that both sides of a round trip or both a loop and its specification share would let a consistent mistake pass.
  `PunycodeRfc`, `WebSocketLayout`, `HtmlReferences`, `ScriptText`, `TokenLaws`, `SuffixText` and `ContextErrors` therefore
  state what results mean without those functions: over the bytes, numbers and steps themselves.
- int32 and uint32 wrap-around is written out (`Int32`, `Uint32`) wherever the source computes in those widths.
- Go strings are sequences of characters, byte slices sequences or arrays of bytes. A label in Punycode is a sequence of code
  points; an encoded string is too, which is exact because UTF-8 never hides an ASCII byte inside another character.
- Panics are a false `ok`, `None`, or, where the source tells its callers not to, a precondition.
- Readers, timers, map iteration order, thread scheduling and the sizes of reads are parameters or free choices.

Where code and comments disagree the code is modelled. `EscapeString` says it escapes five characters; it escapes six,
with the carriage return. `Message.Marshal` says that patching the checksum with `^=` avoids assuming that its bytes are
zero; the sum before includes them, so the result depends on it, and in `Marshal` they are zero. `decode` and `encode`
are not inverse on all labels: the weight cap rejects some long ones, and `RoundTrip` gives the exact condition; and
from 3856 code points on `encode` accepts some labels with a wrong delta, as `PunycodeWrap` shows. The suffix generator
keeps the first of a plain and an exception rule for one name, so an exception listed second is lost, which the
algorithm its lookup follows does not allow. A frame reader drops bytes that its connection delivers together with its
end, which the buffered reader in between does for reads of at least its buffer's size. `readRawOrRCDATA` says that it
reads until the next end tag; after an odd number of "<" it passes that one over. In the escaped text of a script a "<" that
begins no tag leads back to script data, where the HTML standard stays in the comment. A comment's dash behind "--!" is lost,
so "<!--!-->" does not end. `addFormattingElement` counts an
element as identical when all its attributes are among the new one's and equally many, which for repeated attributes is
more than the standard counts: at most three identical elements are left all the same, but an element that is not
identical may go.

## Model

| member | source | states |
|---|---|---|
| PunycodeProofs.RoundTrip | diego-release/src/code.google.com/p/go.net/idna/punycode.go:31-162 | Decoding what the encoder writes gives the label back if every insertion is carried (its target is an int32, its digit weights stay below the cap, fewer than 1024 runes precede it), and is rejected if one is not: the exact condition for the round trip of sections 6.2 and 6.3 of RFC 3492 |
| PunycodeProofs.InsertionsDecode | diego-release/src/code.google.com/p/go.net/idna/punycode.go:48-89 | From any encoder state and decoder state in step, the encoder's remaining text decodes to the label, exactly when the remaining insertions are carried; InStep relates (n, h, delta) to (n, i, output) |
| PunycodeProofs.InStepMeet | diego-release/src/code.google.com/p/go.net/idna/punycode.go:120-158 | When the encoder meets its own value, the decoder's division of i by the output length recovers exactly that value and index, and i is at least 1 afterwards, so the two first-time tests (oldI == 0, h == b) agree |
| PunycodeProofs.DecodedEncodes | diego-release/src/code.google.com/p/go.net/idna/punycode.go:31-95 | Converse: an ASCII string with lower-case digits that the decoder accepts is what the encoder writes for the decoded label |
| PunycodeProofs.Bijection | diego-release/src/code.google.com/p/go.net/idna/punycode.go:31-162 | On such strings `e decodes to s` and `s encodes to e and is carried` are the same relation |
| PunycodeProofs.EncodedIsCanonical | diego-release/src/code.google.com/p/go.net/idna/punycode.go:176-184 | The encoder only writes such strings |
| PunycodeProofs.ShortLabelsRoundTrip | diego-release/src/code.google.com/p/go.net/idna/punycode.go:31-162 | Every label of at most 139 code points (a DNS label has at most 63) is carried and round-trips |
| PunycodeProofs.LongLabelRejected | diego-release/src/code.google.com/p/go.net/idna/punycode.go:73-76 | Counterexample for long labels: 318 ASCII code points followed by U+10FFFF encode to a string the decoder's weight cap rejects |
| PunycodeProofs.LastRuneInsertion | diego-release/src/code.google.com/p/go.net/idna/punycode.go:115-158 | An ASCII label followed by one other rune makes exactly one insertion, whose delta is (r - 128) * (length + 1) + length |
| PunycodeSpec.ReadDigits | diego-release/src/code.google.com/p/go.net/idna/punycode.go:52-78 | Reading a variable-length integer back gives its weighted value and the rest of the string, or is rejected exactly when the value overflows or a digit weight reaches the cap |
| PunycodeSpec.DigitsRead | diego-release/src/code.google.com/p/go.net/idna/punycode.go:52-78 | Conversely any accepted run of lower-case digits is the encoding of the value read |
| Punycode.Decode | diego-release/src/code.google.com/p/go.net/idna/punycode.go:31-95 | decode with its int32 arithmetic, in-place insertion and every rejection, on every input, equals the unbounded decoder: no wrap goes unnoticed; it answers with s exactly when the string means s by section 6.2 of RFC 3492 read over its characters, and fails when it means nothing |
| Punycode.DecodeDelta | diego-release/src/code.google.com/p/go.net/idna/punycode.go:52-78 | The digit loop in int32: either the exact value or a rejection; `i < 0` catches the wrap and the cap keeps w and digit * w in range |
| Punycode.NextRuneFits | diego-release/src/code.google.com/p/go.net/idna/punycode.go:83-84 | n += i / x never wraps, because x is 1 only with the initial bias and one delta is then small |
| Punycode.AdaptBias | diego-release/src/code.google.com/p/go.net/idna/punycode.go:187-200 | adapt in int32 equals the unbounded bias adaptation and stays within the reachable biases |
| Punycode.InsertRune | diego-release/src/code.google.com/p/go.net/idna/punycode.go:88-90 | Growing the output, shifting its tail and storing is insertion at i |
| Punycode.LastHyphen | diego-release/src/code.google.com/p/go.net/idna/punycode.go:36-37 | The basic part ends at the last hyphen, if there is one |
| Punycode.Encode | diego-release/src/code.google.com/p/go.net/idna/punycode.go:98-162 | encode with its int32 arithmetic, for every label: an error exactly when the int32 delta of some insertion fails one of the two tests, else the prefix, the basic runes and every insertion with the delta that int32 arithmetic makes of it; behind the prefix stands a string that means the label, by section 6.2 of RFC 3492 read over its characters, if and only if the label is carried |
| Punycode.AfterJump | diego-release/src/code.google.com/p/go.net/idna/punycode.go:116-125 | After delta += (m - n) * (h + 1), however often the product wraps: the scan goes on with the jump as an int32, or the delta is negative and the insertion that the jump leads to fails |
| Punycode.CountOne | diego-release/src/code.google.com/p/go.net/idna/punycode.go:128-134 | delta++ in the scan stays in step, or turns negative before an insertion that fails |
| PunycodeWrap.RightAnswer | diego-release/src/code.google.com/p/go.net/idna/punycode.go:98-162 | encode's answer is the RFC's encoding if and only if every delta of the label is an int32 |
| PunycodeWrap.ShortAnswer | diego-release/src/code.google.com/p/go.net/idna/punycode.go:98-162 | For labels of at most 3855 code points every wrap shows: encode gives the encoding, or an error exactly when some delta is no int32 |
| PunycodeWrap.WrapUnnoticed | diego-release/src/code.google.com/p/go.net/idna/punycode.go:122-125 | The bound is sharp: for 3855 ASCII runes and U+10FFFF the jump 4295518448 wraps to 551152 and passes the test; encode answers with the delta 555007, which does not decode to the label |
| PunycodeWrap.AnswerDecodes | diego-release/src/code.google.com/p/go.net/idna/punycode.go:31-162 | For the imperative code: decoding what encode answers gives the label back if and only if the label's insertions are carried; so a label accepted after an unnoticed wrap never comes back |
| Punycode.EncodeDelta | diego-release/src/code.google.com/p/go.net/idna/punycode.go:133-148 | The encoder's digit loop writes the variable-length integer of delta: characters that are one numeral, with the weighted sum delta |
| PunycodeRfc.DecodedMeans | diego-release/src/code.google.com/p/go.net/idna/punycode.go:31-95 | Decoding gives s if and only if the string means s in the sense of section 6.2 of RFC 3492, with every letter and constant written out: a to z and A to Z have the values 0 to 25, 0 to 9 the values 26 to 35; a number is the weighted sum of its digits up to the first below its threshold |
| PunycodeRfc.NumberRead | diego-release/src/code.google.com/p/go.net/idna/punycode.go:52-78 | The reader finds a number exactly where such a numeral stands and fits an int32 with its weights below the cap, and gives its weighted sum |
| PunycodeRfc.DigitsMean | diego-release/src/code.google.com/p/go.net/idna/punycode.go:133-148 | The digits written for any delta are one such numeral, and delta is its weighted sum |
| PunycodeRfc.TextMeans | diego-release/src/code.google.com/p/go.net/idna/punycode.go:98-162 | So all digits of an encoding are the numbers of its deltas, one behind the other |
| PunycodeRfc.EncodedMeans | diego-release/src/code.google.com/p/go.net/idna/punycode.go:31-162 | What the encoder writes means the label if and only if it is carried, and a plain string that means a label is its encoding |
| PunycodeRfc.BiasMeans | diego-release/src/code.google.com/p/go.net/idna/punycode.go:187-200 | The bias adaptation with its constants 700, 2, 35, 455, 36 and 38 written out, the halvings as a power |
| PunycodeRfc.Buecher | diego-release/src/code.google.com/p/go.net/idna/punycode_test.go:23 | Known answer: the label b, U+00FC, c, h, e, r is encoded as bcher-kva, and that is decoded to it |
| PunycodeRfc.HelloWorld | diego-release/src/code.google.com/p/go.net/idna/punycode_test.go:24 | Known answer: Hello, U+4E16, U+754C and Hello-ck1hg65u |
| SuffixRules.PrevailsUnique | diego-release/src/code.google.com/p/go.net/publicsuffix/list_test.go:258-314 | The publicsuffix.org algorithm over which rules are in the list gives one outcome: an exception rule wins and drops its left label, else the longest plain or wildcard match, else the last label |
| SuffixRules.NameTypeMeans | diego-release/src/code.google.com/p/go.net/publicsuffix/gen.go:209-215 | The type a node keeps: exception exactly if the first exception rule for its name stands before every plain rule for it; parent only exactly if there is neither |
| SuffixRules.TrieHoldsRules | diego-release/src/code.google.com/p/go.net/publicsuffix/gen.go:200-221 | After inserting all rules, the node at any name is present, has a type and a wildcard flag exactly as the rules with that name say (the first of a plain and an exception rule wins) |
| SuffixRules.TrieOrdered | diego-release/src/code.google.com/p/go.net/publicsuffix/gen.go:410-424 | node.child keeps every node's children in strictly increasing label order |
| SuffixRules.WalkPrevails | diego-release/src/code.google.com/p/go.net/publicsuffix/list.go:45-90 | Walking the trie label by label finds the rule list's prevailing outcome exactly for the domains whose shortest matching exception rule, if there is one, stands before every plain rule for the same name; so for every domain when no name has both kinds of rule |
| SuffixRules.ExceptionLost | diego-release/src/code.google.com/p/go.net/publicsuffix/gen.go:209-213 | Counterexample otherwise: with the rules *.b, a.b, !a.b the exception prevails for a.b, and the walk takes the plain rule |
| SuffixRules.WalkIcannMeans | diego-release/src/code.google.com/p/go.net/publicsuffix/list.go:68-88 | The icann result says whether all rules for exactly the name that the walk comes down to stand in the ICANN section; false if it comes to none, and true for a name that is only on the way to a rule's. ComesTo says in terms of the rules which name that is |
| SuffixRules.ComesToOne | diego-release/src/code.google.com/p/go.net/publicsuffix/list.go:50-82 | There is one such name |
| SuffixRules.TrieHoldsIcann | diego-release/src/code.google.com/p/go.net/publicsuffix/gen.go:209-217 | After inserting all rules, a node's flag says whether every rule for its very name stands in the ICANN section |
| SuffixTable.NodeUnpacks | diego-release/src/code.google.com/p/go.net/publicsuffix/gen.go:489-506 | The fields of a nodes word, the ICANN bit among them, unpack to what was packed, and the word is a uint32 |
| SuffixTable.ChildrenUnpack | diego-release/src/code.google.com/p/go.net/publicsuffix/gen.go:476-481 | The fields of a children word unpack to what was packed, and the word is a uint32 |
| SuffixTable.Find | diego-release/src/code.google.com/p/go.net/publicsuffix/list.go:97-110 | Binary search over the packed labels finds the child with the label, or says that there is none |
| SuffixTable.PublicSuffix | diego-release/src/code.google.com/p/go.net/publicsuffix/list.go:45-90 | On a table that represents an ordered trie, the packed walk returns the suffix that walking the trie chooses, or the slice panic of a one-label exception, and the ICANN flag of the deepest node it comes to |
| SuffixTable.EffectiveTLDPlusOne | diego-release/src/code.google.com/p/go.net/publicsuffix/list.go:45-133 | With the lookup it starts with: the name with one label more than the suffix that the walk chooses, or the error exactly when that suffix is the whole domain; its other error cannot happen |
| SuffixTable.DerivedIsOneMore | diego-release/src/code.google.com/p/go.net/publicsuffix/list.go:123-133 | The dot before the suffix is always there, and the last dot before it starts exactly one more label |
| SuffixGenerator.ChosenLabels | diego-release/src/code.google.com/p/go.net/publicsuffix/list.go:45-90 | The string cut at the k-th label from the right has exactly those k labels |
| SuffixGenerator.Generator.AssignNode | diego-release/src/code.google.com/p/go.net/publicsuffix/gen.go:447-487 | One call of assignIndexes: indexes reserved, entry packed, and an error exactly when the children table is full or hi does not fit its field |
| SuffixGenerator.Generator.Assign | diego-release/src/code.google.com/p/go.net/publicsuffix/gen.go:396-408 | The whole walk lays the trie out in preorder, and succeeds exactly when the number of inner nodes and the total size fit the tables |
| SuffixGenerator.Generator.Print | diego-release/src/code.google.com/p/go.net/publicsuffix/gen.go:489-506 | Printing after that assignment makes the arrays represent everything below the node |
| SuffixGenerator.CollectLabels | diego-release/src/code.google.com/p/go.net/publicsuffix/gen.go:222-226 | The label list holds every label of every rule, nothing else, none twice, in sorted order |
| SuffixGenerator.EncodeLabels | diego-release/src/code.google.com/p/go.net/publicsuffix/gen.go:292-306 | Every label gets an encoding that leads back to it in the text; the size error only over a too long label or text |
| SuffixGenerator.Generate | diego-release/src/code.google.com/p/go.net/publicsuffix/gen.go:258-390 | From rules to tables: an error only over the text's size; the tables are complete exactly when there is room, and then they represent the trie of the rules |
| SuffixGenerator.SuffixUnder | diego-release/src/code.google.com/p/go.net/publicsuffix/gen.go:118-242 | End to end: for every rule list whose tables have room and every domain, the lookup on the generated table returns the suffix of an outcome that is the prevailing one exactly under the condition of WalkPrevails, and the icann result in terms of the rules as in WalkIcannMeans |
| SuffixText.LabelsMean | diego-release/src/code.google.com/p/go.net/publicsuffix/gen.go:208-209 | The labels of a name are the only strings without dots that give it when joined by dots |
| SuffixText.RuleMeans | diego-release/src/code.google.com/p/go.net/publicsuffix/gen.go:200-209 | A line of the list is read as the one rule whose text it is: *. and the name, ! and the name, or the name alone if it begins with neither mark |
| SuffixText.NodeWord | diego-release/src/code.google.com/p/go.net/publicsuffix/gen.go:489-506 | A nodes word as a number, its fields of 6, 15, 1 and 9 bits from the low end |
| SuffixText.ChildrenWord | diego-release/src/code.google.com/p/go.net/publicsuffix/gen.go:476-481 | A children word as a number, its fields of 14, 14, 2 and 1 bits from the low end |
| TextLayout.DropContained | diego-release/src/code.google.com/p/go.net/publicsuffix/gen.go:547-560 | The first crushing loop terminates, loses no label, and leaves no string inside another |
| TextLayout.MergeOverlaps | diego-release/src/code.google.com/p/go.net/publicsuffix/gen.go:568-605 | The merging loop terminates, loses no label, does not grow the text, and leaves no suffix/prefix overlap |
| TextLayout.MakeText | diego-release/src/code.google.com/p/go.net/publicsuffix/gen.go:532-608 | Every label occurs in the resulting text, whose length is at most the sum of the label lengths: "could not find" is unreachable |
| TextLayout.LayOut | diego-release/src/code.google.com/p/go.net/html/atom/gen.go:104-155 | The same for the atom generator: every atom can be found in the text, so its "lost string" error is unreachable |
| ByteOrder.SortStrings | diego-release/src/code.google.com/p/go.net/publicsuffix/gen.go:226 | The sort's result is sorted and has the same strings |
| ContextTree.MarkedIffChain | diego-release/src/code.google.com/p/go.net/context/context.go:300-327 | The contexts a cancel marks are exactly those that a chain of live registrations leads to |
| ContextTree.Contexts.Cancel | diego-release/src/code.google.com/p/go.net/context/context.go:300-327 | cancel on a live context gives it and its live registered descendants the error e and closes each once, keeps earlier errors, touches nothing else, for every order of visiting the children, and terminates; every context's error afterwards is stated by itself |
| ContextTree.NextVisited | diego-release/src/code.google.com/p/go.net/context/context.go:313-318 | One child after the other: what a child's cancel still marks is its own marked set less what is done already |
| ContextTree.Contexts.ParentCancelCtx | diego-release/src/code.google.com/p/go.net/context/context.go:250-263 | The nearest cancellable ancestor, past value contexts |
| ContextTree.NearestMeans | diego-release/src/code.google.com/p/go.net/context/context.go:250-263 | Between a context and that ancestor stand value contexts only, each the parent of the one before |
| ContextTree.CancelledByTidy | diego-release/src/code.google.com/p/go.net/context/context.go:300-327 | A cancel call keeps the tree tidy: below a cancelled context all are cancelled; a plain context is registered exactly while it and the one above are live, a timer context exactly while the one above is |
| ContextTree.PropagatedTidy | diego-release/src/code.google.com/p/go.net/context/context.go:220-245 | propagateCancel makes the tree with a new context tidy again |
| ContextTree.Contexts.PropagateCancel | diego-release/src/code.google.com/p/go.net/context/context.go:220-245 | Registers with the nearest cancellable ancestor, or cancels like it if that has an error: the new context's error is that ancestor's, Canceled or DeadlineExceeded, or none; no other error changes; the tree is tidy again |
| ContextTree.Contexts.WithCancel | diego-release/src/code.google.com/p/go.net/context/context.go:205-209 | The new context with its registration or inherited cancellation, in a tidy tree: cancelled at once with its ancestor's own error when that has one, registered to be cancelled with it otherwise |
| ContextTree.Contexts.WithValue | diego-release/src/code.google.com/p/go.net/context/context.go:412-414 | A value context changes nothing else and keeps the tree tidy |
| ContextTree.Contexts.WithDeadline | diego-release/src/code.google.com/p/go.net/context/context.go:339-362 | The deadline is no later than asked and than the parent's; a passed deadline cancels at once, with DeadlineExceeded if the ancestor has no error and else with the ancestor's |
| ContextTree.Contexts.CancelFunc | diego-release/src/code.google.com/p/go.net/context/context.go:319-325 | The context has the given error unless it had one; after the cascade the *cancelCtx key is deleted from the ancestor's children; the tree stays tidy |
| ContextSafety.StepInv | diego-release/src/code.google.com/p/go.net/context/context.go:205-390 | Every lock-grain step of every thread (constructors with their timers, cancel functions, firing timers, the second locking of timerCtx.cancel) keeps the invariant |
| ContextSafety.ThroughKept | diego-release/src/code.google.com/p/go.net/context/context.go:300-318 | A cancel whose loop over the children is over stays so: no context is looped over twice |
| ContextPromises.StepErrorsStay | diego-release/src/code.google.com/p/go.net/context/context.go:300-312 | No step changes an error once set, or closes a done channel again |
| ContextPromises.RunInv | diego-release/src/code.google.com/p/go.net/context/context.go:205-390 | So does every run, from every invariant state |
| ContextPromises.ThroughBelow | diego-release/src/code.google.com/p/go.net/context/context.go:300-327 | When a cancel of a context is through its loop, every linked context below it at any depth is cancelled and through its own loop, whichever thread ran it |
| ContextPromises.RunSafety | diego-release/src/code.google.com/p/go.net/context/context.go:205-390 | Over every run of any number of threads: a context past propagateCancel below an ancestor, at any depth, that is cancelled and that no thread is looping over is cancelled, whoever holds the locks; a done channel is closed once exactly when there is an error; errors never change |
| ContextPromises.QuietTidy | diego-release/src/code.google.com/p/go.net/context/context.go:205-390 | In every reachable state without a call in progress: the tree is tidy, so a cancelled WithCancel context is in no children map and a WithDeadline context is exactly while its ancestor is live (it was registered under another key than the one deleted); no cancelled context has a timer left |
| ContextPromises.NoDeadlock | diego-release/src/code.google.com/p/go.net/context/context.go:220-390 | In every reachable state with a call in progress some thread can step: locks are taken from ancestor to descendant |
| ContextProgress.CallsEnd | diego-release/src/code.google.com/p/go.net/context/context.go:205-390 | Every call ends: from any reachable state a run without new calls has at most Measure(s) steps, whoever takes them, and where no step is left no call is in progress |
| ContextErrors.StepReasoned | diego-release/src/code.google.com/p/go.net/context/context.go:205-390 | Every step keeps: an error is one for which the context's own cancel function was called, its timer fired or its deadline had passed, or that of its nearest cancellable ancestor; what a thread is about to set is too |
| ContextErrors.ErrorHasCause | diego-release/src/code.google.com/p/go.net/context/context.go:205-390 | Over every run: a context's error is that of a call or a fired timer on it or on a cancellable ancestor, or DeadlineExceeded from a deadline of one of them that had passed |
| ContextErrors.NoOtherError | diego-release/src/code.google.com/p/go.net/context/context.go:205-390 | Over every run: no context has Canceled unless a cancel function was called with it, none DeadlineExceeded unless a timer fired or a deadline had passed |
| ContextErrors.LinkedLike | diego-release/src/code.google.com/p/go.net/context/context.go:220-233 | In every reachable state: a constructor that leaves its ancestor's lock after finding it cancelled leaves a context with exactly that ancestor's error |
| ContextErrors.CallCancels | diego-release/src/code.google.com/p/go.net/context/context.go:300-327 | Over every run: when a cancel function has returned, its context has an error |
| ContextErrors.QuietTimers | diego-release/src/code.google.com/p/go.net/context/context.go:339-385 | In every reachable state without a call in progress exactly the live contexts with a deadline have a timer |
| ContextErrors.NewContext | diego-release/src/code.google.com/p/go.net/context/context.go:205-220 | A constructor's first step makes one context of that parent and kind, live and without children |
| TokenBuffer.Buffer.ReadByte | diego-release/src/code.google.com/p/go.net/html/token.go:234-287 | However the reader splits the input, readByte yields the stream's next byte, or an error once there is none, and every span keeps the stream positions it stands for through compaction and growth |
| TokenBuffer.Buffer.Compact | diego-release/src/code.google.com/p/go.net/html/token.go:242-267 | Moving the live bytes and shifting all spans leaves every span at its stream positions |
| TokenBuffer.Buffer.Fill | diego-release/src/code.google.com/p/go.net/html/token.go:297-305 | readAtLeastOneByte: at least a byte or an error after at most a hundred reads |
| TokenBuffer.Buffer.SpanDenotes | diego-release/src/code.google.com/p/go.net/html/token.go:142-150 | A span inside raw denotes the stream bytes at its positions |
| TokenBuffer.Buffer.ErrorAtEnd | diego-release/src/code.google.com/p/go.net/html/token.go:297-305 | EOF means the whole input has been read; a reader without a hundred empty reads in a row only ever gives EOF |
| TokenSpec.ScriptNextLater | diego-release/src/code.google.com/p/go.net/html/token.go:393-596 | Each one-byte state of the script machine moves on or lowers its rank, and enters the next state with enough of the token behind it to back up |
| Tokenizer.Tokens.ReadScript | diego-release/src/code.google.com/p/go.net/html/token.go:393-596 | The sixteen-state machine stops exactly where ScriptEnd says from the input alone, for every way the reader splits it, which is before the first end tag that is not hidden (TextEnds); it never backs up beyond the start of the token |
| ScriptText.ScriptStops | diego-release/src/code.google.com/p/go.net/html/token.go:393-596 | A script's text ends before the first end tag that is not hidden, or with the input. Which positions are hidden is defined by where <!--, -->, <script and </script stand in the input: inside a script begun in a comment and not ended; so the end tags passed over are exactly those |
| ScriptText.FirstEndTag | diego-release/src/code.google.com/p/go.net/html/token.go:393-596 | With no <!-- before it, the scan stops at the first end tag |
| ScriptText.EndTagMeans | diego-release/src/code.google.com/p/go.net/html/token.go:366-389 | The scan's own test for the end tag is true exactly where </script stands, in letters of either case, with white space, a slash or > behind it |
| ScriptText.SectionMeans | diego-release/src/code.google.com/p/go.net/html/token.go:393-596 | A position outside script text has a <!-- before it with no --> since; a hidden one has a <script behind that with no </script since |
| ScriptText.AsStandard | diego-release/src/code.google.com/p/go.net/html/token.go:492-504 | The sections are those of the HTML standard exactly as long as no < that begins no tag stands in a comment: the code goes back to script data there, the standard stays in the comment |
| Tokenizer.Tokens.ReadRawEndTag | diego-release/src/code.google.com/p/go.net/html/token.go:366-389 | True exactly when the end tag stands there, with the position back before its "</"; otherwise the position is behind the part of the name that matched; never before the start of the token |
| Tokenizer.Tokens.ReadRawOrRCDATA | diego-release/src/code.google.com/p/go.net/html/token.go:329-360 | The raw text's data is exactly the input up to RawSpot, a function of the input and the tag name, for every way the reader splits it; the text is marked raw exactly outside textarea and title |
| RawText.StopsAtNext | diego-release/src/code.google.com/p/go.net/html/token.go:327-357 | The comment says the loop reads until the next end tag; it does exactly when the number of "<" directly before that tag is even |
| RawText.NoneToStopAt | diego-release/src/code.google.com/p/go.net/html/token.go:327-357 | Without an end tag it reads to the end of the input |
| RawText.MissedEndTag | diego-release/src/code.google.com/p/go.net/html/token.go:340-352 | Counterexample for every tag name: the end tag in "<</name>" is passed over |
| Tokenizer.Tokens.ReadComment | diego-release/src/code.google.com/p/go.net/html/token.go:600-642 | The comment's data and end are those of CommentAt on the input: up to "-->", "--!>", or less at the end of the input |
| Tokenizer.Tokens.ReadMarkupDeclaration | diego-release/src/code.google.com/p/go.net/html/token.go:663-688 | Which of comment, doctype, CDATA section and bogus comment the input makes there, its data, where it ends, and whether its NULs are converted, all as MarkupAt says from the input |
| Tokenizer.Tokens.ReadTag | diego-release/src/code.google.com/p/go.net/html/token.go:816-840 | The name and the attributes, each key and value with its exact place, are those of TagAt on the input; they lie inside the token, saved keys are not empty |
| Tokenizer.Tokens.ReadTagAttrVal | diego-release/src/code.google.com/p/go.net/html/token.go:888-946 | The value's place, quoted, bare or missing, is what ValueAt says from the input |
| TokenSpec.RawByFirst | diego-release/src/code.google.com/p/go.net/html/token.go:786-804 | Looking a tag name up by its first letter finds it exactly if it is one of the ten names |
| Tokenizer.Tokens.StartTagIn | diego-release/src/code.google.com/p/go.net/html/token.go:756-774 | True exactly when the lower-cased tag name is one of the names given |
| Tokenizer.Tokens.Next | diego-release/src/code.google.com/p/go.net/html/token.go:950-1066 | The next token is TokenAt of the input, the position and the raw tag: its type, data, attributes, flags, where it ends and which raw text follows; it starts where the last one ended, is not empty unless it is the error token, and its data and attributes lie inside it |
| Tokenizer.Tokens.Raw | diego-release/src/code.google.com/p/go.net/html/token.go:1070-1072 | The stream bytes from the token's start to its end |
| Tokenizer.Tokens.Pieces | diego-release/src/code.google.com/p/go.net/html/token.go:329-1072 | For every caller that decides by what it has seen: the tokens, up to and including the first error token, are PiecesFrom of the input and the caller alone; their raw bytes concatenate to exactly the input, no piece but the last is empty, and there are at most n + 1 of them |
| Tokenizer.SameForAllReaders | diego-release/src/code.google.com/p/go.net/html/token.go:234-305 | Two readers that deliver the same input in different chunks, with buffers of any size, give the same tokens: types, bytes, data, keys and values |
| TokenLaws.CommentEnds | diego-release/src/code.google.com/p/go.net/html/token.go:600-642 | A comment ends at the first --> or --!> that closes it; it closes exactly if the number of --! directly before it is even, because the scan loses the dash behind a --! |
| TokenLaws.CommentOpen | diego-release/src/code.google.com/p/go.net/html/token.go:600-642 | Without one the comment goes on to the end of the input |
| TokenLaws.CommentMissed | diego-release/src/code.google.com/p/go.net/html/token.go:626-637 | Counterexample: <!--!--> does not end there |
| TokenLaws.CdataEnds | diego-release/src/code.google.com/p/go.net/html/token.go:722-752 | A CDATA section ends before the first ]]> |
| TokenLaws.ScanMeans | diego-release/src/code.google.com/p/go.net/html/token.go:842-946 | A tag name, a key, a bare or a quoted value goes up to the first of the bytes that end it, each listed, and that byte is consumed or left as listed |
| TokenLaws.TextEnds | diego-release/src/code.google.com/p/go.net/html/token.go:978-1010 | Text goes up to the first < with a letter, a slash, ! or ? behind it |
| TokenLaws.TagReads | diego-release/src/code.google.com/p/go.net/html/token.go:83-118 | Round trip: a start tag written as Token.String does, with any attributes that can be read back, is read as the same name, keys and values, closing itself or not, whatever follows |
| TokenLaws.EndTagReads | diego-release/src/code.google.com/p/go.net/html/token.go:108-109 | Round trip for end tags without attributes |
| TokenLaws.CommentReads | diego-release/src/code.google.com/p/go.net/html/token.go:112-113 | Round trip for comments whose data does not close them |
| TokenLaws.DoctypeReads | diego-release/src/code.google.com/p/go.net/html/token.go:114-115 | Round trip for doctypes whose data is not empty, begins with no white space and holds no > |
| TokenLaws.MarkupMeans | diego-release/src/code.google.com/p/go.net/html/token.go:663-752 | What begins with <! and no dashes is a doctype exactly by the word DOCTYPE in either case, a CDATA section exactly by [CDATA[ where that is allowed, and a comment otherwise; NULs are converted in the CDATA section only |
| TokenLaws.RawNames | diego-release/src/code.google.com/p/go.net/html/token.go:786-809 | The tags whose content is raw text, name by name |
| HtmlEscape.ConvertNewlines | diego-release/src/code.google.com/p/go.net/html/token.go:1076-1104 | In place, equals the pure conversion of a copy |
| HtmlEscape.NewlinesClean | diego-release/src/code.google.com/p/go.net/html/token.go:1074-1075 | No CR is left and the text does not grow; with NewlinesKeeps, converting twice is converting once |
| HtmlEscape.NewlinesKeeps | diego-release/src/code.google.com/p/go.net/html/token.go:1074-1075 | Text without a CR is left alone |
| HtmlEscape.NewlinesPiecewise | diego-release/src/code.google.com/p/go.net/html/token.go:1076-1104 | Converting two pieces agrees with converting the whole exactly when no CR LF is torn between them |
| HtmlReferences.NewlinesMean | diego-release/src/code.google.com/p/go.net/html/token.go:1074-1104 | The conversion drops each LF directly behind a CR and turns each CR into LF, byte by byte |
| AtomTable.PathSimple | diego-release/src/code.google.com/p/go.net/html/atom/gen.go:272-284 | A push path that ends in a vacancy visits no slot twice |
| AtomTable.DepthSuffices | diego-release/src/code.google.com/p/go.net/html/atom/gen.go:272-276 | A push that runs out of depth would never have found a vacancy |
| AtomTable.Table.Push | diego-release/src/code.google.com/p/go.net/html/atom/gen.go:272-284 | A failed push leaves the table unchanged; a successful one moves the strings along such a path |
| AtomTable.PushedIn | diego-release/src/code.google.com/p/go.net/html/atom/gen.go:250-269 | Storing a string where a push made room keeps every string in one of its two slots and in one slot only, and adds just that string |
| AtomTable.Table.Insert | diego-release/src/code.google.com/p/go.net/html/atom/gen.go:250-269 | insert adds exactly the string, or fails with nothing changed and then neither of its slots could have been freed by any pushing |
| AtomTable.Table.InsertAll | diego-release/src/code.google.com/p/go.net/html/atom/gen.go:236-247 | A table for which init succeeds holds exactly the given strings; if it fails, one of them had no way in |
| AtomTable.ComputeFnv | diego-release/src/code.google.com/p/go.net/html/atom/gen.go:205-211 | The loop computes the FNV hash in uint32 arithmetic |
| AtomTable.FnvOfA | diego-release/src/code.google.com/p/go.net/html/atom/gen.go:205-211 | Known answer: from the offset basis 0x811c9dc5 the hash of a is 0xe40c292c |
| AtomTable.MakeAtom | diego-release/src/code.google.com/p/go.net/html/atom/gen.go:157-164 | For every name that occurs in the text: what uint32(off<<8 | len) gives is the name's atom exactly if the name has at most 255 bytes and occurs at an offset of 24 bits, and then it is 256 times the first offset plus the length |
| AtomTable.PrintTable | diego-release/src/code.google.com/p/go.net/html/atom/gen.go:176-183 | The printed slots are the atoms of the strings, zero where vacant, exactly if every string fits in that sense |
| AtomTable.Match | diego-release/src/code.google.com/p/go.net/html/atom/atom.go:46-53 | The byte loop decides equality |
| AtomTable.Lookup | diego-release/src/code.google.com/p/go.net/html/atom/atom.go:57-69 | On any table a nonzero answer is an atom whose String is the name asked for; on one that init accepted and that was printed right it is nonzero exactly for the names inserted; it comes from the slot of the hash or of the hash shifted by 16 |
| AtomGenerator.Unique | diego-release/src/code.google.com/p/go.net/html/atom/gen.go:66-79 | The loop over the sorted names keeps each once, with the greatest of their lengths, which one of them has |
| AtomGenerator.FindTable | diego-release/src/code.google.com/p/go.net/html/atom/gen.go:82-102 | Whatever start values are tried, the table found holds exactly the names, in 2^k slots with k at most 16 |
| AtomGenerator.TotalOfDistinct | diego-release/src/code.google.com/p/go.net/html/atom/gen.go:66-79 | Names kept once are together no longer than the list, so short lists have short texts |
| AtomGenerator.Generate | diego-release/src/code.google.com/p/go.net/html/atom/gen.go:45-190 | The printed slots are the atoms of the names if and only if each name fits the text that was laid out, as short lists do |
| AtomGenerator.LookupIn | diego-release/src/code.google.com/p/go.net/html/atom/gen.go:45-190 | Both programs together: sorting, removing duplicates, finding a table, laying out the text, printing and looking up. For any names a nonzero atom's String is the name asked for; if each fits, the atom is nonzero exactly for the names in the list |
| HtmlEscape.RefNarrow | diego-release/src/code.google.com/p/go.net/html/escape.go:57-163 | With tables whose replacements are no wider than name length + 1, no reference decodes to more bytes than it takes |
| HtmlEscape.UnescapeEntity | diego-release/src/code.google.com/p/go.net/html/escape.go:57-163 | One reference decoded in place: the output as the pure decoder's, the unread input untouched, dst <= src, in bounds, in both attribute modes |
| HtmlEscape.UnescapeNumeric | diego-release/src/code.google.com/p/go.net/html/escape.go:68-120 | Numeric references with the int32 digit loop, the Windows-1252 replacements and the minimum length test |
| HtmlEscape.UnescapeNamed | diego-release/src/code.google.com/p/go.net/html/escape.go:125-162 | Named references: longest run of letters and digits, the attribute exception, one or two runes, the prefixes without semicolon |
| HtmlEscape.Unescape | diego-release/src/code.google.com/p/go.net/html/escape.go:167-184 | unescape in place equals a left-to-right decoder run on an untouched copy |
| HtmlEscape.Escape | diego-release/src/code.google.com/p/go.net/html/escape.go:198-231 | The IndexAny loop writes every byte or its reference |
| HtmlEscape.EscapeRoundTrip | diego-release/src/code.google.com/p/go.net/html/escape.go:233-258 | Unescaping the escaped text gives it back, for every byte string, in both attribute modes |
| HtmlEscape.EscapedIsSafe | diego-release/src/code.google.com/p/go.net/html/escape.go:196-231 | Of the special bytes only the ampersand occurs in escaped text |
| HtmlEscape.EscapeThenUnescape | diego-release/src/code.google.com/p/go.net/html/escape.go:237-258 | UnescapeString(EscapeString(s)) == s, by the code |
| HtmlReferences.NumericMeans | diego-release/src/code.google.com/p/go.net/html/escape.go:68-120 | Every text that begins with &# and k digits: the UTF-8 of the character that the value of the digits, as an int32, stands for, in base 10 or 16, with Windows-1252 and U+FFFD by value; one decimal digit without a semicolon, and too short a text, stay as they are |
| HtmlReferences.WrittenMeans | diego-release/src/code.google.com/p/go.net/html/escape.go:68-120 | For every number below 2^31 and every numeral of it in either base, in either case: &#, the digits and ; decode to the character, and the rest of the text goes on |
| HtmlReferences.LetterA | diego-release/src/code.google.com/p/go.net/html/escape.go:84-99 | Known answers: &#x41; and &#65; are A |
| HtmlReferences.Utf8Means | diego-release/src/code.google.com/p/go.net/html/escape.go:120 | Every scalar value is written in the form that section 3 of RFC 3629 gives it |
| HtmlReferences.NamedMeans | diego-release/src/code.google.com/p/go.net/html/escape.go:125-162 | A name ends behind all its letters and digits and a semicolon; in an attribute a name without semicolon before = stays; a known name gives its one or two runes; otherwise, outside attributes, the longest known prefix of two to six letters decides; else the text stays |
| HtmlReferences.ReferencesAre | diego-release/src/code.google.com/p/go.net/html/escape.go:196-222 | Escaping writes &amp; &#39; &lt; &gt; &#34; and &#13; |
| Dom.InsertKeeps | diego-release/src/code.google.com/p/go.net/html/node.go:53-76 | With the pointer changes of an insertion at position p all pointers of all nodes agree with the child sequences in which p holds the new child |
| Dom.Node.InsertBefore | diego-release/src/code.google.com/p/go.net/html/node.go:53-76 | Refines insertion into the child sequence, all pointers of all nodes consistent; refuses exactly the attached nodes, and the child sequences are then as before |
| Dom.Node.AppendChild | diego-release/src/code.google.com/p/go.net/html/node.go:81-94 | Refines appending to the child sequence, in the same sense |
| Dom.RemoveKeeps | diego-release/src/code.google.com/p/go.net/html/node.go:100-119 | With the pointer changes of a removal all pointers agree with the child sequences without the child |
| Dom.Node.RemoveChild | diego-release/src/code.google.com/p/go.net/html/node.go:100-119 | Refines removal; refuses exactly the nodes that are no child; the removed node is detached |
| Dom.ReparentChildren | diego-release/src/code.google.com/p/go.net/html/node.go:122-131 | Terminates for dst != src with dst's children followed by src's, and src empty |
| Dom.LinkedMeans | diego-release/src/code.google.com/p/go.net/html/node.go:38-46 | In a consistent tree FirstChild and LastChild are the ends of the child sequence, and a child's Parent, PrevSibling and NextSibling are the node and the neighbours, or nil |
| Dom.ListsMean | diego-release/src/code.google.com/p/go.net/html/node.go:53-119 | Inserting puts the new child directly before the given one, or last; removing takes out that child alone |
| Dom.NeverEnds | diego-release/src/code.google.com/p/go.net/html/node.go:122-131 | For dst == src with at least one child each turn only rotates the list of children: after any number of turns it is not empty, so the loop never ends |
| ParserStacks.NodeStack.IndexOf | diego-release/src/code.google.com/p/go.net/html/node.go:167-174 | The top-most occurrence, or -1 |
| ParserStacks.NodeStack.Remove | diego-release/src/code.google.com/p/go.net/html/node.go:184-193 | Takes out the top-most occurrence only |
| ParserStacks.Parser.IndexOfElementInScope | diego-release/src/code.google.com/p/go.net/html/parse.go:108-150 | The highest matching element with no stopping element above it, -1 exactly if there is none; for the two table scopes the panic exactly when an HTML element that does not match is met first |
| ParserStacks.StopsMean | diego-release/src/code.google.com/p/go.net/html/parse.go:61-65 | What stops the search in each scope, element by element |
| ParserStacks.Parser.PopUntil | diego-release/src/code.google.com/p/go.net/html/parse.go:97-103 | Pops down to and with that element, or changes nothing; panics in the same cases |
| ParserStacks.Parser.AddFormattingElement | diego-release/src/code.google.com/p/go.net/html/parse.go:308-352 | For every list: the entries of the trimmed list, each as often as that has it, with the new element on top, which is also the new top of the open stack; in the trimmed list's order if no entry but the marker stands twice, which stays so; at most three identical elements after a marker stay at most three |
| ParserStacks.TrimmedSame | diego-release/src/code.google.com/p/go.net/html/parse.go:312-349 | Removing an entry where it stands top-most, also if that is not where the loop is, leaves as many of each entry as removing it in its place |
| ParserStacks.TrimmedMembers | diego-release/src/code.google.com/p/go.net/html/parse.go:312-349 | Of the entries that the loop counts the top-most two after the last marker stay, in order |
| ParserStacks.TrimmedOthers | diego-release/src/code.google.com/p/go.net/html/parse.go:312-349 | Every other entry stays, in order |
| ParserStacks.ArkKept | diego-release/src/code.google.com/p/go.net/html/parse.go:308-352 | The Noah's Ark clause of section 12.2.3.3 of the HTML standard: if no list of identical elements (same tag, same attributes each as often) after a marker is longer than three, none is afterwards, for every list and every new element, repeated attributes and entries included |
| ParserStacks.NewFamilyFits | diego-release/src/code.google.com/p/go.net/html/parse.go:308-352 | What the loop counts for the new element has at most three entries whatever the list was |
| ParserStacks.TrimmedAsRequired | diego-release/src/code.google.com/p/go.net/html/parse.go:329-341 | The loop takes out what the clause asks for exactly when no more than two entries count, or only identical ones do: its comparison also counts entries whose attributes are among the new element's, as many but not each as often |
| ParserStacks.CountedIsSame | diego-release/src/code.google.com/p/go.net/html/parse.go:329-341 | An entry that repeats no attribute counts exactly if it is identical |
| ParserStacks.RepeatedAttributeTrimmed | diego-release/src/code.google.com/p/go.net/html/parse.go:329-341 | Counterexample otherwise: with [x, y] coming to three entries [x, x], none of them identical to it, one of them is taken out |
| ParserStacks.Parser.Reconstruct | diego-release/src/code.google.com/p/go.net/html/parse.go:365-391 | Replaces exactly the maximal suffix of unopened non-marker entries by fresh clones in order, pushes the clones in order, changes no other entry |
| ParserStacks.CloningKeepsArk | diego-release/src/code.google.com/p/go.net/html/parse.go:365-391 | Replacing entries by clones keeps the limit of three identical elements after each marker |
| ParserStacks.AllOpen | diego-release/src/code.google.com/p/go.net/html/parse.go:365-391 | On a list of elements and markers all clones are pushed and nothing is left to reconstruct |
| ParserStacks.Parser.ClearActive | diego-release/src/code.google.com/p/go.net/html/parse.go:355-362 | Pops down to and with the last marker, or everything (CutAtMarker) |
| Icmp.Complement | diego-release/src/code.google.com/p/go.net/internal/icmp/message.go:78-83 | Two folds and the complement give what completes the sum to a nonzero multiple of 65535 |
| Icmp.EitherOrder | diego-release/src/code.google.com/p/go.net/internal/icmp/message.go:71-83 | A sum that is full over little-endian words is full over network-order words |
| Icmp.Sum | diego-release/src/code.google.com/p/go.net/internal/icmp/message.go:70-77 | The loop over up to 131074 bytes of either parity computes the exact sum: the uint32 never wraps |
| Icmp.FilledMeans | diego-release/src/code.google.com/p/go.net/internal/icmp/message.go:67-68 | The length stands in network order in bytes 32 to 35 of the pseudo header, the rest of which stays |
| Icmp.ChecksumCompletes | diego-release/src/code.google.com/p/go.net/internal/icmp/message.go:70-84 | With the checksum filled in at an even place that was zero, the one's complement sum of section 1 of RFC 1071 is 0xffff |
| Icmp.Marshal | diego-release/src/code.google.com/p/go.net/internal/icmp/message.go:40-85 | The message has the type, code and body; its one's complement sum, over the filled-in pseudo header for ICMPv6, is 0xffff; without a pseudo header an ICMPv6 message keeps a zero checksum; an ICMPv4 message given a nonempty pseudo header panics exactly if that is longer than the body, and else loses its first bytes |
| WebSocketFrames.FirstByteRoundTrip | diego-release/src/code.google.com/p/go.net/websocket/hybi.go:130-136 | FIN, the reserved bits and the operation code are read back exactly when the code is below 16 |
| WebSocketFrames.LengthRoundTrip | diego-release/src/code.google.com/p/go.net/websocket/hybi.go:155-162 | The length bytes are read back without wrapping an int64 |
| WebSocketFrames.HeaderRoundTrip | diego-release/src/code.google.com/p/go.net/websocket/hybi.go:120-178 | The header, payload length and key are read back, whatever follows the frame |
| WebSocketFrames.MessagesRoundTrip | diego-release/src/code.google.com/p/go.net/websocket/hybi.go:82-242 | Any list of messages written one after the other is read back: fin, rsv, opcode, key, payload of each in turn (sections 5.2 and 5.3 of RFC 6455) |
| WebSocketFrames.MaskPieces | diego-release/src/code.google.com/p/go.net/websocket/hybi.go:87-91 | Masking in pieces is masking the whole |
| WebSocketLayout.EncodedStands | diego-release/src/code.google.com/p/go.net/websocket/hybi.go:187-242 | A written frame has the layout of section 5.2 of RFC 6455: FIN, RSV1 to RSV3 and the code in the first byte; the mask bit and the length, or 126 and two bytes, or 127 and eight, in network order; the key; the payload, each byte xor the key's byte i mod 4 |
| WebSocketLayout.ParsedStands | diego-release/src/code.google.com/p/go.net/websocket/hybi.go:120-178 | For arbitrary bytes: parsing finds a header exactly where one stands in that layout, with those values, and none where the bytes end within it |
| WebSocketLayout.OneHeader | diego-release/src/code.google.com/p/go.net/websocket/hybi.go:120-178 | At most one header stands at the start of any bytes |
| WebSocket.FrameWriter.Write | diego-release/src/code.google.com/p/go.net/websocket/hybi.go:187-242 | Writes header and masked payload; a masking key that has not four bytes is an error and nothing is written; what is written has the layout of section 5.2 of RFC 6455, bit by bit |
| WebSocket.ReadHeader | diego-release/src/code.google.com/p/go.net/websocket/hybi.go:120-178 | Byte by byte, finds the header that the frame starts with, or fails exactly when the connection ends within it; the header is the one that stands there in the layout of section 5.2 of RFC 6455 |
| WebSocket.FrameReader.Read | diego-release/src/code.google.com/p/go.net/websocket/hybi.go:82-94 | Takes the bytes that room, chunk, length and connection allow; gives them in plain, unmasked in place, with pos advanced; at an end it gives nothing, and bytes that arrive together with the end are taken and dropped |
| WebSocket.ReadAll | diego-release/src/code.google.com/p/go.net/websocket/hybi.go:82-94 | However the calls and the connection split the payload, the result is the payload in plain without what Lost says: nothing is lost exactly if no read of at least the buffer's size takes the connection's last bytes along with its end, and otherwise the bytes of that one read |
| WebSocket.ArrivesWhole | diego-release/src/code.google.com/p/go.net/websocket/hybi.go:82-242 | What arrives of a list of messages is the list, if and only if the end of the connection comes apart from the last bytes of the last payload |
| WebSocket.PayloadLost | diego-release/src/code.google.com/p/go.net/websocket/hybi.go:82-86 | Counterexample: one read with room for the last payload, which is no smaller than the buffer, that gets it together with the end loses all of it |
| WebSocket.ShortArrives | diego-release/src/code.google.com/p/go.net/websocket/hybi.go:82-86 | If the last payload is smaller than the buffered reader's buffer everything arrives whole: no read goes past the buffer then |
| WebSocket.Exchange | diego-release/src/code.google.com/p/go.net/websocket/hybi.go:82-242 | By the code, for every way of splitting the reads of each message: every sendable message comes back whole but the last, which is cut by what its reads lose; all come back whole exactly under that condition |

## Left out

- PunycodeProofs.RoundTrip: code points are not restricted to Unicode scalar values, so the replacement of surrogates when Go converts the decoded runes to a string is not modelled.
- Punycode.Decode: strings of 2^31 - 1 code points and more are excluded, as the source computes int32(len(output) + 1); so are such labels for Punycode.Encode.
- SuffixGenerator.Generate: the trie's nodes are values, not pointers to nodes that are changed in place, so node identity is not captured; the parsing of the list's lines into comments and sections, printing and formatting are not modelled.
- SuffixGenerator.SuffixUnder: the source drops the error of assignIndexes and prints tables all the same; what a lookup does on such incomplete tables is not modelled.
- ContextPromises.RunSafety: the goroutine that propagateCancel starts for a foreign Context type is not modelled, nor are values carried by contexts; a timer may fire at any time while it is set, also more than once.
- ContextTree.Contexts.WithDeadline: the timer is part of the interleaved model only, where it is set, fires and is stopped; here a deadline that is still to come has no effect.
- TokenBuffer.Buffer.ReadByte: the reader's only errors are EOF and no progress, and there is no limit on the buffer (maxBuf).
- Tokenizer.Tokens.Next: when the reader gives up with no progress the token is only shown to be in bounds; Token, Text and TagName, which unescape and convert what Next found, are left out, and TagAttr gives raw bytes.
- AtomGenerator.FindTable: which of several tables the search prefers is left out.
- AtomGenerator.LookupIn: which names are found when some name does not fit is left out.
- HtmlEscape.Unescape: the contents of the entity tables are a parameter; that the real tables are narrow is an assumption stated in the source's own TODO.
- HtmlEscape.Escape: errors of the underlying writer are left out.
- Dom.Node.InsertBefore: the caller's promise that oldChild is a child of the node is a precondition, as the source does not check it; that no node becomes its own descendant is not shown, as the source does not prevent it.
- Dom.ReparentChildren: the call with dst == src and at least one child, which never returns (NeverEnds), is a precondition.
- ParserStacks.Parser.AddChild: where the new node goes in the tree, with foster parenting, is left out; only the stack is modelled.
- Icmp.Marshal: the body arrives marshalled; the caller's pseudo header slice, which the source may fill in place, is a value; ParseMessage is left out.
- WebSocket.ReadAll: connection errors other than the end of the stream, and the total frame length that Len reports, are left out.
- The insertion modes and the adoption agency of the HTML parser, character set detection, spdy, proxies, handshakes, the socket packages, gosqlite and all Ruby, Node and BOSH code are not part of this model.
