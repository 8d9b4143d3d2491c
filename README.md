# Email verifier pipeline, modelled in Dafny

This project models the verification pipeline of the UnlimitedVerifier
open-source email verifier (`open_source.py`). It checks whether an address
is likely deliverable without sending mail:

1. a rate-limit gate on a process-wide timestamp;
2. a syntax check by regular expression;
3. the domain after the `@`;
4. an MX lookup, sorted by preference;
5. a partial SMTP handshake (connect, HELO, MAIL FROM, RCPT TO, QUIT),
   tried against each mail exchanger in order until one answers.

The network is given as data:

- The DNS answer is a list of `(preference, exchange)` records or a failure
  (`Mx.DnsAnswer`). The resolver is a function from domain to answer.
- A mail server is a script. For each of the five stages it says which reply
  code comes back, or which exception the client library raises there
  (`Smtp.Server`). The network is a function from hostname to script.
- The clock reading at the start of a call is an integer parameter. The
  sleep of the rate limiter is taken as exact.

Files:

- `option.dfy`: the `Option` type.
- `text.dfy`: the Python string operations used: `str.split` with one
  separator, `str.rstrip` with one character, string ordering.
- `syntax.dfy`: `validate_syntax` and the domain split.
- `mx.dfy`: the pure part of `get_mx_records`.
- `smtp.dfy`: `verify_smtp`, as a step-by-step method with a declarative
  specification (`Expected`), plus the `except` chain.
- `verifier.dfy`: `verify_email`. The global `last_verification_time`
  becomes a field of class `Verifier`. A ghost history of gate passes shows
  that passes are spaced. The fallback loop over the exchangers is the
  method `ProbeInOrder`.

Two points about the order and timing of `verify_email`:

- The gate runs first in `verify_email`, before the syntax check and the MX
  lookup (open_source.py:89-96). It does not run between resolution and
  probing.
- The gate spaces gate passes, not probe starts. The timestamp is the clock
  after the wait. The DNS lookup then takes a variable time before the first
  probe. So the first probes of two consecutive calls can start less than
  `RATE_LIMIT_SECONDS` apart. The model proves the spacing of gate passes
  (`SpacedApart`) and nothing about probe start times.

Python's `$` without MULTILINE also matches just before one trailing newline.
So `validate_syntax` accepts `"a@b.cd\n"`. The model keeps that case. The
domain `email.split('@')[1]` of such an address then ends in the newline
(`Syntax.IsDomainText`).

## Model

| member | source | states |
|---|---|---|
| Syntax.ValidateSyntax | open_source.py:30-32 | the check is true exactly when the address is local part `@` domain `.` label over the pattern's character classes, whole string, or that followed by one newline (Python `$`) |
| Syntax.MatchesWholeDecide | open_source.py:31-32 | the executable cut at the first `@` and the last `.` decides the anchored pattern exactly: true iff some cut of the string fits the three classes |
| Syntax.WellFormedIsValid | open_source.py:31-32 | every address built from a non-empty local part, a non-empty domain part and a label of two or more letters passes, with or without one trailing newline |
| Syntax.NoAtIsInvalid | open_source.py:31-32 | an address without `@` never passes |
| Syntax.MatchHasOneAt | open_source.py:31 | an address that matches the pattern has exactly one `@`; splitting at it gives two parts that glue back to the address, the first a valid local part |
| Syntax.MatchDomainIsDotted | open_source.py:31 | the second part of a matching address is a domain, a dot and a top-level label, maybe followed by the newline `$` lets through |
| Syntax.ValidHasOneAt | open_source.py:111 | for an address that passes the check, `split('@')` has exactly two parts (so `[1]` exists), the address is `parts[0] + "@" + parts[1]`, `parts[0]` is a local part and `parts[1]` is a dotted domain (maybe with the newline) |
| Syntax.Domain | open_source.py:111 | the domain of a valid address contains no `@`, is exactly the text after the address's only `@`, and ends in a dot and a label of two or more letters, or that plus the newline |
| Text.Split | open_source.py:111 | `str.split` with one separator: one more part than separators, no part contains the separator, and joining the parts with the separator gives the string back |
| Text.TrimTrailing | open_source.py:38 | `str.rstrip(c)`: the result is a prefix of the input, does not end in `c`, and every removed character is `c` |
| Text.StrLeTransitive | open_source.py:38 | Python string `<=` is transitive (with StrLeTotal and StrLeAntisymmetric it is a total order, which makes the sort well defined) |
| Mx.Pairs | open_source.py:38 | one pair per record, in record order, holding the record's preference and its exchange stripped of trailing dots |
| Mx.SortPairs | open_source.py:38 | `sorted` on the pairs: the result is in tuple order and is a permutation of the input |
| Mx.Hosts | open_source.py:39 | the projection keeps the length and gives the hostname of each pair, in order |
| Mx.SortedHosts | open_source.py:38-39 | on a successful lookup there is one hostname per record and none ends in a dot |
| Mx.GetMxRecords | open_source.py:35-41 | any resolution failure gives `[]`; otherwise one hostname per record, none ending in a dot |
| Mx.SortedUnique | open_source.py:38 | two tuple-sorted arrangements of the same pairs are equal, so the sort result does not depend on the sort algorithm |
| Mx.MxRecordsOrdered | open_source.py:38-39 | for every tuple-sorted permutation of the stripped pairs, the result is exactly its list of hostnames: ordered by non-decreasing preference, ties by hostname |
| Mx.MxRecordsSorted | open_source.py:38-39 | the result is the hostnames of some tuple-sorted permutation of the stripped pairs |
| Smtp.FirstCatching | open_source.py:72-81 | the index of the first handler in the list that catches the exception; no earlier handler catches it |
| Smtp.Classify | open_source.py:72-81 | only an exception outside `OSError` reaches the bare `Exception` handler |
| Smtp.ClassifyIsFirstCatching | open_source.py:72-81 | the recorded class is the class of the first `except` clause, in source order, that the exception is an instance of |
| Smtp.ClassifyFollowsHandlerOrder | open_source.py:72-81 | disconnects, response errors and timeouts get their own classes; other SMTP exceptions and other `OSError`s fall to the socket-error handler; anything else is unclassified |
| Smtp.Completed | open_source.py:54-71 | the number of stages before the first exception: every earlier stage got a reply code, and the stage at that number raised |
| Smtp.VerifySmtp | open_source.py:44-83 | the result equals `Expected`; `mx_host` is the input host; `connected` is true iff connect did not raise; not connected clears the other flags; `error` is None iff no stage raised; `rcpt_to_ok` implies connected and a 250 reply; the session always starts with a connect to the host on port 25 with the 10-second timeout, and the commands sent stop at the stage that raised |
| Smtp.StageFlags | open_source.py:55-69 | each flag is true iff every earlier stage got a reply and that stage's reply was 250, so a non-250 reply does not stop the later stages; `error` is None iff no stage raised |
| Smtp.ExceptionClearsLaterFlags | open_source.py:54-81 | an exception at stage k records an error and leaves the flags of stage k and later false |
| Smtp.QuitFailureKeepsRecipient | open_source.py:67-71 | an exception in QUIT after an accepted RCPT TO leaves `rcpt_to_ok` true with the error recorded |
| Verifier.GatePass | open_source.py:89-96 | the timestamp after the gate is at least the entry time and at least the previous timestamp plus `RATE_LIMIT_SECONDS`, and is one of the two |
| Verifier.SpacedExtend | open_source.py:89-96 | a gate pass at least `RATE_LIMIT_SECONDS` after the last one keeps the history spaced |
| Verifier.SpacedApart | open_source.py:89-96 | in a spaced history, passes i and j are at least (j - i) times `RATE_LIMIT_SECONDS` apart |
| Verifier.MovesOnIffConnectFails | open_source.py:124-129 | the loop passes over a host (neither `rcpt_to_ok` nor `connected`) exactly when connecting to it raised |
| Verifier.ProbeCount | open_source.py:120-129 | the loop probes at least one host of a non-empty list and at most all of them; every probed host but the last failed to connect; an early stop is at a host that connected |
| Verifier.ProbedInOrder | open_source.py:120-129 | the probed hosts are a prefix of the MX list, in order and non-empty when the list is; all but the last failed to connect; an early stop is at a host that connected |
| Verifier.FirstReachableEndsLoop | open_source.py:120-129 | when host k is the first one that accepts a connection, the loop probes exactly hosts 0..k |
| Verifier.AllUnreachableProbesAll | open_source.py:120-129 | when no host accepts a connection, the loop probes every host |
| Verifier.LastProbed | open_source.py:120-122 | the host of the probe kept as `smtp_check` is one of the MX hosts |
| Verifier.Verification | open_source.py:86-131 | invalid syntax gives the initial result (no domain, no MX, no probe, not deliverable); otherwise the domain and the MX list are set; an empty list gives no probe and not deliverable; otherwise `smtp_check` is the probe of the last host the loop reached; `deliverable` iff that probe had `rcpt_to_ok`, which needs valid syntax, a non-empty MX list, a connection and a 250 reply to RCPT TO from an MX host |
| Verifier.ProbeInOrder | open_source.py:120-129 | the hosts the loop connects to, read from the probes it makes, are exactly `Probed` of the list; it keeps the probe of the last host reached as `smtp_check`, and sets `deliverable` iff that probe had `rcpt_to_ok` |
| Verifier.Verifier.VerifyEmail | open_source.py:86-131 | on every call, valid or not, the timestamp becomes `GatePass(now, old)`, at least `RATE_LIMIT_SECONDS` after the old one, and is appended to the spaced history; the result is `Verification` of the inputs; the probed hosts are `Probed` of the MX list, none when it is empty |
| Verifier.Verifier.constructor | open_source.py:27 | the timestamp starts at 0, with a history holding only that value |

## Left out

- `print_banner` and `main` (open_source.py:134-206): console presentation only.
- `dns.resolver.resolve`, `smtplib` and sockets are not modelled. They are replaced by the resolver and network functions described above. The model does not capture their timing or retries.
- `str(r.exchange)` is taken as the exchange name as text. The null MX record `.` therefore yields the host `""`, as in the source.
- `time.time()` and `time.sleep`: time is an integer clock reading passed in by the caller. The source reads the clock a second time after the gate (open_source.py:96), on both branches. The model takes that reading to be exactly `now` plus the wait, which is `now` when there was no wait. Floating-point time, oversleeping and time passing during the gate are not modelled.
- The rate-limit message `print` (open_source.py:93) is not modelled.
- Error strings (open_source.py:73-81) become the closed enumeration `Smtp.ErrorKind` of the five handler classes. The exception's message text is dropped.
- Exceptions outside `Exception` (such as `KeyboardInterrupt`) are not modelled. They would escape every handler.
- The reply to `connect` and to `quit` carries a code that the source ignores. The model ignores it too. Only an exception at those stages matters.
- The network is a function of the hostname, so a host listed twice behaves the same both times.
- Concurrency is not modelled: the process-wide timestamp is used by one thread.
- Verifier.Verifier.VerifyEmail: does not state anything about the time between the first SMTP probes of two calls. Only the gate timestamps are spaced, as explained above.
- Verifier.ProbeInOrder: the `for` loop of `verify_email` is written as its own method, called by `VerifyEmail` after the MX lookup. It sets `smtp_check` and `deliverable` through its outputs instead of updating the result dictionary in place, and the model does not capture that in-place update.
