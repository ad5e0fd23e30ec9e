/**
 * Appointment status normalisation: the raw status text that the store
 * yields (an enum label, free text, a lookup-table name or a code, in
 * Russian or English) is mapped onto one of four canonical Russian labels,
 * and only two of those may be cancelled.
 */
module AppointmentStatus {
  import opened Wrappers
  import opened Text

  const Pending := "ожидает подтверждения"
  const Confirmed := "подтверждена"
  const Cancelled := "отменена"
  const Completed := "завершена"

  const CanonicalStatuses: set<string> := {Pending, Confirmed, Cancelled, Completed}

  /** The lower-cased spellings that mean "pending confirmation". */
  const PendingKeys: set<string> := {
    "ожидает подтверждения", "ожидание подтверждения", "ожидаетподтверждения",
    "pending", "pending confirmation", "pending_confirmation",
    "awaiting confirmation", "awaiting_confirmation"}

  /** The lower-cased spellings that mean "confirmed". */
  const ConfirmedKeys: set<string> := {
    "подтверждена", "подтвержден", "подтверждено", "confirmed", "confirmed appointment"}

  /** The lower-cased spellings that mean "cancelled". */
  const CancelledKeys: set<string> := {
    "отменена", "отменен", "отменено", "canceled", "cancelled", "declined"}

  /** The lower-cased spellings that mean "completed". */
  const CompletedKeys: set<string> := {
    "завершена", "завершено", "completed", "finished", "done"}

  /**
   * The synonym table, keyed by lower-cased text: the 24 entries of the
   * source's dictionary, grouped by the label they map to.
   */
  const StatusAliases: map<string, string> :=
    (map k | k in PendingKeys :: Pending)
    + (map k | k in ConfirmedKeys :: Confirmed)
    + (map k | k in CancelledKeys :: Cancelled)
    + (map k | k in CompletedKeys :: Completed)

  /** The statuses from which an appointment may be cancelled. */
  const AllowedCancellationStatuses: set<string> := {Pending, Confirmed}

  /**
   * Normalises a raw status value. A missing or blank value gives "", a
   * known synonym (ignoring case and surrounding whitespace) gives its
   * canonical label, and anything else gives the stripped text itself.
   */
  function NormalizeStatus(value: Option<string>): (r: string)
    ensures value.None? ==> r == ""
    ensures r == "" <==> value.None? || Strip(value.value) == ""
    ensures r == "" || r in CanonicalStatuses || (value.Some? && r == Strip(value.value))
    ensures value.Some? && Strip(value.value) != "" && Lower(Strip(value.value)) !in StatusAliases ==> r == Strip(value.value)
  {
    match value
    case None => ""
    case Some(raw) =>
      var text := Strip(raw);
      if text == "" then ""
      else
        var key := Lower(text);
        if key in StatusAliases then StatusAliases[key] else text
  }

  /** Whether the cancellation gate lets an appointment with this raw status through. */
  predicate MayCancel(value: Option<string>)
    ensures MayCancel(value) ==> value.Some? && Strip(value.value) != ""
  {
    NormalizeStatus(value) in AllowedCancellationStatuses
  }

  /** Every value of the synonym table is a canonical label. */
  lemma AliasValuesCanonical()
    ensures forall k :: k in StatusAliases ==> StatusAliases[k] in CanonicalStatuses
  {
  }

  /** The empty text is no spelling of any label. */
  lemma EmptyNotKey()
    ensures "" !in StatusAliases
  {
    EmptyNotKeyOf(PendingKeys);
    EmptyNotKeyOf(ConfirmedKeys);
    EmptyNotKeyOf(CancelledKeys);
    EmptyNotKeyOf(CompletedKeys);
  }

  /** The empty text is not among the given spellings when each has some character. */
  lemma EmptyNotKeyOf(keys: set<string>)
    requires forall k :: k in keys ==> |k| > 0
    ensures "" !in keys
  {
  }

  /**
   * A value whose stripped, lower-cased text is a spelling in the table
   * normalises to that spelling's label, which is a canonical one.
   */
  lemma KnownSynonym(value: Option<string>)
    requires value.Some? && Lower(Strip(value.value)) in StatusAliases
    ensures NormalizeStatus(value) == StatusAliases[Lower(Strip(value.value))]
    ensures NormalizeStatus(value) in CanonicalStatuses
  {
    EmptyNotKey();
    assert Strip(value.value) != "";
    AliasValuesCanonical();
  }

  /** A label that is its own key, and has nothing to lower or strip, normalises to itself. */
  lemma SelfMappedLabel(c: string)
    requires c != [] && !IsSpace(c[0]) && !IsSpace(c[|c| - 1])
    requires Lower(c) == c && c in StatusAliases && StatusAliases[c] == c
    ensures NormalizeStatus(Some(c)) == c
  {
    StripUnchanged(c);
  }

  /** The pending label is one of its own spellings and of no other label's. */
  lemma PendingSelfMapped()
    ensures Lower(Pending) == Pending && Pending in StatusAliases && StatusAliases[Pending] == Pending
    ensures NormalizeStatus(Some(Pending)) == Pending
  {
    PendingIsLowercase();
    assert Pending !in CompletedKeys;
    assert Pending !in CancelledKeys;
    assert Pending !in ConfirmedKeys;
    SelfMappedLabel(Pending);
  }

  lemma PendingIsLowercase()
    ensures Lower(Pending) == Pending
  {
    LowerOfLowercase(Pending);
  }

  lemma ConfirmedSelfMapped()
    ensures Lower(Confirmed) == Confirmed && Confirmed in StatusAliases && StatusAliases[Confirmed] == Confirmed
    ensures NormalizeStatus(Some(Confirmed)) == Confirmed
  {
    assert Confirmed !in CompletedKeys;
    assert Confirmed !in CancelledKeys;
    LowerOfLowercase(Confirmed);
    SelfMappedLabel(Confirmed);
  }

  lemma CancelledSelfMapped()
    ensures Lower(Cancelled) == Cancelled && Cancelled in StatusAliases && StatusAliases[Cancelled] == Cancelled
    ensures NormalizeStatus(Some(Cancelled)) == Cancelled
  {
    assert Cancelled !in CompletedKeys;
    LowerOfLowercase(Cancelled);
    SelfMappedLabel(Cancelled);
  }

  lemma CompletedSelfMapped()
    ensures Lower(Completed) == Completed && Completed in StatusAliases && StatusAliases[Completed] == Completed
    ensures NormalizeStatus(Some(Completed)) == Completed
  {
    LowerOfLowercase(Completed);
    SelfMappedLabel(Completed);
  }

  /** Every canonical label is a key of the table that maps to itself. */
  lemma CanonicalSelfMapped(c: string)
    requires c in CanonicalStatuses
    ensures Lower(c) == c && c in StatusAliases && StatusAliases[c] == c
    ensures NormalizeStatus(Some(c)) == c
  {
    if c == Pending {
      PendingSelfMapped();
    } else if c == Confirmed {
      ConfirmedSelfMapped();
    } else if c == Cancelled {
      CancelledSelfMapped();
    } else {
      assert c == Completed;
      CompletedSelfMapped();
    }
  }

  /** Normalising a normalised status changes nothing. */
  lemma NormalizeStatusIdempotent(value: Option<string>)
    ensures NormalizeStatus(Some(NormalizeStatus(value))) == NormalizeStatus(value)
  {
    var r := NormalizeStatus(value);
    if r in CanonicalStatuses {
      CanonicalSelfMapped(r);
    } else if r != "" {
      StripIdempotent(value.value);
    }
  }

  /** Case does not matter for a known synonym. */
  lemma NormalizeStatusIgnoresCase(s: string)
    requires Lower(Strip(s)) in StatusAliases
    ensures NormalizeStatus(Some(Lower(s))) == NormalizeStatus(Some(s))
  {
    StripLower(s);
    LowerIdempotent(Strip(s));
  }

  /**
   * The cancellation gate: only pending-confirmation and confirmed
   * statuses pass; cancelled, completed, missing, blank and unrecognised
   * values are refused.
   */
  lemma CancellationGate(value: Option<string>)
    ensures MayCancel(value) <==> NormalizeStatus(value) == Pending || NormalizeStatus(value) == Confirmed
    ensures NormalizeStatus(value) in {Cancelled, Completed, ""} ==> !MayCancel(value)
    ensures value.Some? && Lower(Strip(value.value)) !in StatusAliases ==> !MayCancel(value)
  {
    if value.Some? && Lower(Strip(value.value)) !in StatusAliases {
      var text := Strip(value.value);
      if text == Pending || text == Confirmed {
        CanonicalSelfMapped(text);
        assert false;
      }
    }
  }

  /** The cancelled label normalises to itself and does not pass the gate. */
  lemma CancelledLabelRefused()
    ensures NormalizeStatus(Some(Cancelled)) == Cancelled && !MayCancel(Some(Cancelled))
  {
    CancelledSelfMapped();
    assert Cancelled != Pending && Cancelled != Confirmed;
  }

  /** An appointment whose stored status is already the cancelled label is refused. */
  lemma CancelledIsRefused(value: Option<string>)
    requires value.Some? && Lower(Strip(value.value)) == Cancelled
    ensures NormalizeStatus(value) == Cancelled && !MayCancel(value)
  {
    CancelledSelfMapped();
    KnownSynonym(value);
    assert Cancelled != Pending && Cancelled != Confirmed;
  }
}
