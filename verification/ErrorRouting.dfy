/**
 * Which errors of a pipeline run are bad data (aggregator/src/worker/index.ts), stated with the
 * codes and phrases written out, for every state in which a run can end.
 */
module ErrorRouting {
  import opened Wrappers
  import opened SubmissionQueue
  import opened WorkerProtocol
  import opened WorkerRuns

  /** The status of the awaited job once its run has thrown. */
  function StatusAfterThrow<T, R>(s: System<T, R>, error: WorkerError): JobStatus
    requires s.control.Awaiting? && s.control.id in s.queue.records
  {
    var s' := Next(s, Settle(Thrown(error)));
    assert s'.queue.records.Keys == s.queue.records.Keys by {
      SettleOnRecord(s.queue, s.control.id, Thrown(error), "");
    }
    s'.queue.records[s.control.id].status
  }

  lemma AwaitedIsRecord<T, R>(steps: seq<Step<T, R>>)
    requires Run<T, R>(Start(), steps).control.Awaiting?
    ensures var s := Run(Start(), steps);
            s.control.id in s.queue.records && 1 <= s.queue.records[s.control.id].attempts <= 3
  {
    ReachableInv(steps);
    var s := Run(Start(), steps);
    assert JobOk(s.queue.records[s.control.id]);
  }

  /**
   * Seven chain errors are bad data and quarantine the job at once, whatever the attempt. Every
   * other code sends it back to the list until it has had three attempts: transient ones, the two
   * alert codes and codes nobody listed alike.
   */
  lemma ChainErrorsAreRouted<T, R>(steps: seq<Step<T, R>>, code: string, message: string)
    requires Run<T, R>(Start(), steps).control.Awaiting?
    ensures var s := Run(Start(), steps);
            && s.control.id in s.queue.records
            && var status := StatusAfterThrow(s, ChainSubmissionError(code, message));
               if code in {"DeviceNotActive", "InvalidP256Signature", "InvalidZKProof", "PayloadHashMismatch",
                           "InvalidPubkeyLength", "InvalidSignatureLength", "SessionKeyAlreadyUsed"}
               then status == Quarantined
               else status == if s.queue.records[s.control.id].attempts < 3 then Pending else Failed
  {
    AwaitedIsRecord(steps);
  }

  /** Equal but for the case of a letter. */
  predicate SameLetter(c: char, d: char) {
    || c == d
    || ('a' <= c <= 'z' && d as int == c as int - 32)
    || ('A' <= c <= 'Z' && d as int == c as int + 32)
  }

  predicate Spells(word: string, phrase: string) {
    |word| == |phrase| && forall i :: 0 <= i < |word| ==> SameLetter(word[i], phrase[i])
  }

  const FAILURE_PHRASES: set<string> := {"Cannot satisfy constraint", "verify_signature", "assertion failed"}

  function LowerCase(s: string): string {
    seq(|s|, i requires 0 <= i < |s| => LowerChar(s[i]))
  }

  lemma PhrasesInLowerCase()
    ensures forall w :: w in CIRCUIT_FAILURES <==> exists p :: p in FAILURE_PHRASES && w == LowerCase(p)
  {
    assert LowerCase("Cannot satisfy constraint") == "cannot satisfy constraint";
    assert LowerCase("verify_signature") == "verify_signature";
    assert LowerCase("assertion failed") == "assertion failed";
    assert CIRCUIT_FAILURES[0] in CIRCUIT_FAILURES && CIRCUIT_FAILURES[1] in CIRCUIT_FAILURES
           && CIRCUIT_FAILURES[2] in CIRCUIT_FAILURES;
    assert "Cannot satisfy constraint" in FAILURE_PHRASES && "verify_signature" in FAILURE_PHRASES
           && "assertion failed" in FAILURE_PHRASES;
  }

  lemma SpellsIffLowerCase(word: string, phrase: string)
    ensures Spells(word, phrase) <==> LowerCase(word) == LowerCase(phrase)
  {
    if LowerCase(word) == LowerCase(phrase) {
      forall i | 0 <= i < |word| ensures SameLetter(word[i], phrase[i]) {
        assert LowerCase(word)[i] == LowerCase(phrase)[i];
      }
    }
  }

  lemma ContainsIffAround(text: string, a: string, word: string, b: string, phrase: string)
    requires text == a + word + b && Spells(word, phrase)
    ensures ContainsIgnoreCase(text, LowerCase(phrase))
  {
    SpellsIffLowerCase(word, phrase);
    var rest := text[|a|..];
    assert rest == word + b;
    assert forall i :: 0 <= i < |word| ==> LowerChar(rest[i]) == LowerCase(word)[i];
    assert StartsWithIgnoreCase(rest, LowerCase(phrase));
  }

  /** One of the three phrases, in any letter case, anywhere in the message of another error, is bad data too. */
  lemma CircuitFailuresAreQuarantined<T, R>(steps: seq<Step<T, R>>, a: string, word: string, b: string, phrase: string)
    requires Run<T, R>(Start(), steps).control.Awaiting?
    requires phrase in {"Cannot satisfy constraint", "verify_signature", "assertion failed"} && Spells(word, phrase)
    ensures var s := Run(Start(), steps);
            && s.control.id in s.queue.records
            && StatusAfterThrow(s, OtherError(a + word + b)) == Quarantined
  {
    AwaitedIsRecord(steps);
    PhrasesInLowerCase();
    ContainsIffAround(a + word + b, a, word, b, phrase);
    hide ContainsIgnoreCase, LowerCase, Spells, Run;
    assert LowerCase(phrase) in CIRCUIT_FAILURES;
    assert IsCircuitFailure(a + word + b);
  }

  lemma PhraseIn(message: string) returns (a: string, word: string, b: string, phrase: string)
    requires IsCircuitFailure(message)
    ensures message == a + word + b && Spells(word, phrase) && phrase in FAILURE_PHRASES
  {
    PhrasesInLowerCase();
    var lower :| lower in CIRCUIT_FAILURES && ContainsIgnoreCase(message, lower);
    phrase :| phrase in FAILURE_PHRASES && lower == LowerCase(phrase);
    var i :| 0 <= i <= |message| && StartsWithIgnoreCase(message[i..], lower);
    a, word, b := message[..i], message[i..i + |lower|], message[i + |lower|..];
    assert message == a + word + b;
    assert forall j :: 0 <= j < |lower| ==> word[j] == message[i..][j];
    assert LowerCase(word) == lower;
    SpellsIffLowerCase(word, phrase);
  }

  /** Nothing else is: a quarantined message contains such a phrase, every other one is retried up to three times. */
  lemma OtherErrorsAreRetried<T, R>(steps: seq<Step<T, R>>, message: string)
    returns (a: string, word: string, b: string, phrase: string)
    requires Run<T, R>(Start(), steps).control.Awaiting?
    ensures var s := Run(Start(), steps);
            && s.control.id in s.queue.records
            && var status := StatusAfterThrow(s, OtherError(message));
               && (status == Quarantined ==>
                     && message == a + word + b && Spells(word, phrase)
                     && phrase in {"Cannot satisfy constraint", "verify_signature", "assertion failed"})
               && (status != Quarantined ==>
                     status == if s.queue.records[s.control.id].attempts < 3 then Pending else Failed)
  {
    AwaitedIsRecord(steps);
    a, word, b, phrase := "", "", "", "";
    if IsCircuitFailure(message) {
      a, word, b, phrase := PhraseIn(message);
    }
    hide IsCircuitFailure, Spells, Run;
  }
}
