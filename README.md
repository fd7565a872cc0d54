# email-job-responder, modelled in Dafny

`email-job-responder` is a small mail watcher. It logs in to an IMAP server and records
the highest UID in the inbox, then loops forever:

- it waits in IDLE for the server to report a change;
- it searches for UIDs from `last_seen_uid + 1` on;
- it hands each UID to `process_email`, then raises `last_seen_uid` to it.

`process_email` fetches the message and picks its body: the plain-text part if there is
one, otherwise the HTML part. It asks a language model whether the body is a job offer.
On a "YES" it asks the model for a reply and sends that reply, with a CV attached, to
the first `From` address under the subject "Re: <subject>".

The model has five modules:

- `Outcomes` (outcomes.dfy): the option and result types. An exception is either a
  keyboard interrupt or any other error. This distinction decides whether the loop ends.
- `Text` (text.dfy): Python's `str.strip()` and `str.upper()`, restricted to ASCII.
- `Verdict` (verdict.dfy): the verdict test of `is_job_offer`.
- `Pipeline` (pipeline.dfy): `process_email` as a function of what the outside world
  answers. That is the fetched and parsed message, the classifier's reply, the
  generator's reply and whether the send went through. The result records the service
  calls made and the exception that escaped, if any.
- `Watermark` (watermark.dfy) and `Monitor` (monitor.dfy): the loop of `monitor_inbox`.
  `Watermark` defines the startup mark, the drain of one search answer, one
  wait-and-search cycle and a run of cycles as functions, and proves the loop's
  properties about them. `Monitor.InboxMonitor` is the imperative form: a class whose
  `lastSeen` field the methods update, proved to follow those functions.

The drain takes a `Guard`:

- `TrustSearch` processes every UID the search returns, as the program does.
- `SkipSeen` also skips a UID that is not above the mark. This is the corrected
  behaviour; see "## Findings".

Where the program's behaviour differs from a plain reading of its intent, the model
follows the code:

- An exception from `process_email` skips the `max` update for that UID and abandons
  the rest of the batch. The loop catches it and waits again in the same session, so the
  UID is retried on the next change.
- A keyboard interrupt raised anywhere in the loop body ends the loop. Every other
  exception only ends the current turn.
- The program does not filter the search answer. `Watermark.NeverRevisited` holds only
  with the guard, or when the search keeps to what the program assumes: UIDs from the
  bound on, strictly ascending.
- A text or HTML part that is present but fails to decode raises. The program does not
  fall back to the other part.
- A message with an empty `From` list raises `IndexError` after the reply has been
  generated and before anything is sent.

## Model

| member | source | states |
|---|---|---|
| Outcomes.Max | main.py:133 | `max` of two UIDs is at least each of them and equals one of them |
| Text.TrimStart | main.py:37 | the leading half of `strip`: never longer than its input; `Text.TrimStartSpec` states what it removes and keeps |
| Text.TrimEnd | main.py:37 | the trailing half of `strip`: never longer than its input; `Text.TrimEndSpec` states what it removes and keeps |
| Text.TrimStartSpec | main.py:37 | the leading part removed by `strip` is all whitespace; the rest is a suffix of the reply that does not start with whitespace |
| Text.TrimEndSpec | main.py:37 | the trailing part removed by `strip` is all whitespace; the rest is a prefix that does not end with whitespace |
| Text.Strip | main.py:37 | the stripped reply has no surrounding whitespace |
| Text.StripFrame | main.py:37 | the stripped reply sits inside the reply with only whitespace before and after it |
| Text.StripFramed | main.py:37 | any text without surrounding whitespace, padded with whitespace on both sides, strips back to itself |
| Text.Upper | main.py:37 | `upper` keeps the length and upper-cases each ASCII letter in place |
| Verdict.UpperIsYes | main.py:37-38 | an upper-cased word equals "YES" exactly when it is "yes" in any mix of case |
| Verdict.IsJobOffer | main.py:37-38 | `reply.strip().upper() == "YES"`; `Verdict.JobOfferIff` characterizes it in both directions against `Verdict.YesAt` |
| Verdict.PositiveIsFramedYes | main.py:37-38 | a positive verdict means the reply is "yes" in any case with only whitespace around it, at the position where the leading whitespace ends |
| Verdict.FramedYesIsPositive | main.py:37-38 | a reply that is "yes" in any case with only whitespace around it gives a positive verdict |
| Verdict.JobOfferIff | main.py:37-38 | the verdict is positive exactly when the reply is "yes", in any case, surrounded by nothing but whitespace |
| Verdict.PaddedYesCounts | main.py:37-38 | " yes\n" counts as a job offer |
| Verdict.NearMissesDoNotCount | main.py:37-38 | "NO" and "Yes." do not count |
| Pipeline.SelectBody | main.py:88-94 | the text part is used when present, otherwise the HTML part; an undecodable chosen part is an error, and no part at all is "no readable content" |
| Pipeline.ReplySubject | main.py:66 | the reply subject is "Re: " followed by the whole original subject |
| Pipeline.ReplySubjectInjective | main.py:66 | distinct subjects give distinct reply subjects |
| Pipeline.ReplyTo | main.py:97-99 | the reply goes to the address of the first `From` entry, under the reply subject, with the stripped generated text; `Pipeline.SendOnlyOnPositiveVerdict` states when it is sent |
| Pipeline.ProcessEmail | main.py:79-102 | the branches of `process_email` with the calls they make and the exception that escapes; its promises are stated by `Pipeline.SendOnlyOnPositiveVerdict`, `Pipeline.ClassifyOnlyReadableBodies`, `Pipeline.NegativeVerdictEndsQuietly` and `Pipeline.ProcessEmailReturnsIff` |
| Pipeline.SendsInAppend | main.py:96-99 | the sends among two runs of calls are the sends of the first followed by those of the second |
| Pipeline.SendOnlyOnPositiveVerdict | main.py:96-99 | exactly one send is attempted when the message was fetched, had a readable body, was classified YES, a reply was generated and `From` is non-empty; none otherwise. It goes to the first `From` address with the reply subject and the stripped generated text |
| Pipeline.ClassifyOnlyReadableBodies | main.py:80-96 | a service is called exactly when the message was fetched and has a readable body, and the first call classifies the selected body; no readable content ends quietly with no call |
| Pipeline.NegativeVerdictEndsQuietly | main.py:96-102 | a negative verdict ends processing normally right after the classification |
| Pipeline.ProcessEmailReturnsIff | main.py:79-102 | `process_email` returns normally exactly when it was fetched and had no readable body, or was classified as no offer, or was answered and sent; an interrupt escapes only when a service call was interrupted |
| Watermark.HighestUid | main.py:120 | the startup mark is 0 for an empty inbox, otherwise a UID of the inbox no lower than any other |
| Watermark.Initial | main.py:119-120 | the state after the startup search: the mark is `Watermark.HighestUid` of the startup UIDs and nothing has been processed; `Monitor.InboxMonitor.constructor` states it for the class |
| Watermark.Drain | main.py:131-133 | the mark after a drain is never lower than before |
| Watermark.DrainSettles | main.py:131-133 | no UID whose processing completed is above the mark the drain ends with |
| Watermark.DrainLoopStep | main.py:131-133 | one step of the `for` loop: skip, raise and stop, or process and continue with the raised mark |
| Watermark.DrainInOrder | main.py:131-132 | the program's drain processes the UIDs in the order found, each once, until one raises |
| Watermark.DrainStopsAtFirstRaise | main.py:131-133 | every call but the last returned normally, the drain raised nothing exactly when it processed every UID and the last call returned, and an exception it raises is the one its last call raised |
| Watermark.DrainMarkAsWritten | main.py:131-133 | after the program's drain the mark is the maximum of the old mark and the UIDs that completed |
| Watermark.Cycle | main.py:122-139 | the mark never decreases and the log only grows; a wait without responses changes nothing; a failed wait or search changes nothing |
| Watermark.Run | main.py:122-139 | the cycles in turn, stopping after the first one a keyboard interrupt ends; `Watermark.InterruptedWaitEndsLoop` and `Watermark.InterruptedDrainEndsLoop` state that an interrupt ends it, and `Watermark.RunMonotone`, `Watermark.RunSurvivesErrors`, `Watermark.RunKeepsOrder` and `Watermark.RunStaysAbove` state its other properties |
| Watermark.RunMonotone | main.py:122-139 | over any run of cycles the mark never decreases and the log only grows |
| Watermark.DrainRaisesOnlyWhatProcessingRaises | main.py:131-132 | a drain raises an interrupt only when processing some UID did |
| Watermark.ErrorsDoNotEndTheLoop | main.py:134-139 | a cycle with no keyboard interrupt in any answer does not end the loop |
| Watermark.RunSurvivesErrors | main.py:134-139 | with no keyboard interrupt in the earlier cycles, the loop goes through every cycle: running `cs` and then `c` is the run of `cs` followed by the cycle `c` |
| Watermark.DrainRaisesAtFirstRaise | main.py:131-132 | the first UID whose processing raises ends the program's drain with that same exception |
| Watermark.InterruptedWaitEndsLoop | main.py:125-136 | a wait or a search interrupted by the user ends the loop at once, with the state unchanged, whatever cycles would follow |
| Watermark.InterruptedDrainEndsLoop | main.py:131-136 | when processing a UID is interrupted and every UID before it completed, the cycle reports the interrupt and the loop ends with that cycle |
| Watermark.DrainFresh | main.py:130-133 | with the guard or an honest search, a drain processes only UIDs above its starting mark, each completed UID below every later one |
| Watermark.OrderedAppend | main.py:131-133 | attempts above the mark appended to a settled, ordered log keep it ordered |
| Watermark.RunKeepsOrder | main.py:122-133 | with the guard or honest searches, a run keeps the log ordered and every completed UID at most the mark |
| Watermark.RunStaysAbove | main.py:122-133 | with the guard or honest searches, nothing at or below a mark once reached is processed later |
| Watermark.NeverRevisited | main.py:119-133 | with the guard or honest searches, no message present at startup is processed and no completed message is processed again |
| Watermark.Between | main.py:130 | the UIDs of the mailbox between two bounds, as a search answers them |
| Watermark.RangeToStar | main.py:130 | the server's answer to `UID q:*`, where `*` is the largest UID and the range may be written either way round (sections 6.4.8 and 9 of RFC 3501); `Watermark.RangeToStarHoldsNewest` and `Watermark.SampleSearchAnswersNewest` state what it holds |
| Watermark.RangeToStarHoldsNewest | main.py:130 | the answer to `UID q:*` always holds the newest UID, even when `q` is above it |
| Watermark.SampleOfferAnswered | main.py:96-100 | the sample job offer is answered once and processing completes |
| Watermark.SampleSearchAnswersNewest | main.py:130 | on a mailbox holding UIDs 1 to 3, a search from any bound above 3 answers [3] |
| Watermark.SampleCycleOnce | main.py:129-133 | with mark 3 and a change notification that brings no new mail, the program processes UID 3 again |
| Watermark.SampleCycleGuarded | main.py:129-133 | the same notification with the guard processes nothing |
| Watermark.NewestMessageAnsweredAgain | main.py:119-133 | starting on a mailbox of 1 to 3, two such notifications make the program answer message 3 twice, and the log is not ordered |
| Watermark.GuardIgnoresNewestMessage | main.py:119-133 | with the guard the same two notifications process nothing |
| Monitor.InboxMonitor.constructor | main.py:119-120 | the mark starts at the highest UID present at startup, or 0, with an empty log |
| Monitor.InboxMonitor.Visit | main.py:132-133 | one call of `process_email` is logged; the mark rises to the UID only when the call returns |
| Monitor.InboxMonitor.Drain | main.py:131-133 | the `for` loop ends with the mark, log and escaping exception of `Watermark.Drain` |
| Monitor.InboxMonitor.Cycle | main.py:123-139 | one turn of the loop changes the state as `Watermark.Cycle` does and reports a keyboard interrupt |
| Monitor.InboxMonitor.Run | main.py:122-139 | the loop follows `Watermark.Run`, the mark never decreases, and with the guard or honest searches the log stays ordered and settled |
| Monitor.MonitorInbox | main.py:119-139 | after the startup search and the loop the state is `Watermark.Run` from the startup mark; with the guard no startup message and no completed message is processed again |

## Left out

- Login, `LoginError` and `exit()`, `select_folder`, and the IMAP connection: the session
  is the oracle answers in each `CycleInput`.
- An exception from the startup search `search(['ALL'])` is not modelled; the startup
  UIDs are an input.
- The IDLE state machine (`idle`, `idle_check(timeout=300)`, `idle_done`) is reduced to
  one outcome per turn: raised, or returned with or without responses.
- The prompts, the model name and the OpenAI client: the classifier's and generator's
  raw replies, or their exceptions, are inputs.
- MIME parsing by pyzmail, charsets, and a subject that arrives as bytes: the fetched
  message is an input whose parts either decode to text or raise.
- Building the `EmailMessage`, reading the attachment, and the SMTP session and its
  port: their combined outcome is the `sent` answer. A header value that `EmailMessage`
  rejects is one of its failures.
- `print`, `time.sleep(10)`, and a keyboard interrupt during that sleep: output and time
  are not modelled.
- The `while True` loop is modelled over a finite sequence of turns supplied by the
  environment.
- Text.Strip: only ASCII whitespace is stripped; Python's `strip` also removes Unicode
  whitespace.
- Text.Upper: only ASCII letters are upper-cased; Python's `upper` also maps other
  Unicode letters and may change the length.
- Monitor.InboxMonitor.Run: the ordering guarantee is stated for the guard or for
  searches that answer UIDs from the bound on, strictly ascending. The program as
  written does not have it; see "## Findings".

## Findings

| source | as written | input that shows it | evidently intended | confidence | as-written member | corrected member |
|---|---|---|---|---|---|---|
| main.py:130-133 | every UID the search `UID last_seen_uid+1:*` returns is processed | inbox with UIDs 1 to 3 at startup, so the mark is 3; a change is reported without new mail, e.g. a flag change; by section 6.4.8 of RFC 3501 `UID 4:*` answers UID 3; message 3 is processed, and answered if it is an offer, on every such change | only messages newer than the mark are processed, each at most once when it completes | medium, not executed | Watermark.NewestMessageAnsweredAgain | Watermark.NeverRevisited |
