/**
 * The spaced-repetition flashcard engine of the Learning screen: the interval ladder, the edits
 * to notes and cards, the due-card selector and counters, and the review session. "Today" is a
 * day number supplied by the caller, and new ids are parameters.
 */
module Learning {
  import opened Wrappers
  import opened Text
  import opened Calendar
  import opened Types
  import opened Seqs

  // ---------------------------------------------------------------------------
  // interval policy
  // ---------------------------------------------------------------------------

  /** The stage after an answer: one rung up, capped at mastered, on success; back to 0 on failure. */
  function NextStage(stage: nat, success: bool): (s: nat)
    ensures s <= MasteredStage
    ensures s == 0 <==> !success
  {
    if success then (if stage + 1 <= MasteredStage then stage + 1 else MasteredStage) else 0
  }

  /**
   * Days to the next review after a success that reached `newStage`: the ladder rung
   * `min(newStage - 1, 4)`, with 1 day for stage 0 (a case no success reaches).
   */
  function SuccessInterval(newStage: nat): (days: nat)
    ensures days in SrsIntervals
  {
    if newStage == 0 then 1
    else SrsIntervals[if newStage - 1 <= |SrsIntervals| - 1 then newStage - 1 else |SrsIntervals| - 1]
  }

  /** The card written back after an answer: the queued copy with its new stage, due day and review day. */
  function Answered(card: Flashcard, success: bool, today: Day): (r: Flashcard)
    ensures r.id == card.id && r.question == card.question && r.answer == card.answer
    ensures r.lastReviewed == Some(today)
    ensures StageInRange(r)
    ensures r.nextReviewDate > today
  {
    var stage := NextStage(card.stage, success);
    var days := if success then SuccessInterval(stage) else 1;
    card.(stage := stage, nextReviewDate := today + days, lastReviewed := Some(today))
  }

  /** A success never lands on stage 0, so the `newStage === 0` arm of the interval is dead. */
  lemma SuccessNeverStageZero(stage: nat)
    ensures NextStage(stage, true) >= 1
    ensures SuccessInterval(NextStage(stage, true)) == SrsIntervals[if stage < 4 then stage else 4]
  {
  }

  /**
   * A success moves the card up to `min(stage + 1, 5)` and schedules it the ladder rung of its
   * previous stage (capped at the last rung) after today.
   */
  lemma SuccessClimbsLadder(card: Flashcard, today: Day)
    ensures Answered(card, true, today).stage == (if card.stage < 5 then card.stage + 1 else 5)
    ensures Answered(card, true, today).nextReviewDate
      == today + SrsIntervals[if card.stage < 4 then card.stage else 4]
  {
  }

  /** A failure resets the card to stage 0 and schedules it for tomorrow, whatever its stage was. */
  lemma FailureResets(card: Flashcard, today: Day)
    ensures Answered(card, false, today).stage == 0
    ensures Answered(card, false, today).nextReviewDate == today + 1
  {
  }

  /** A mastered card stays mastered on success and keeps the 30-day interval. */
  lemma MasteredKeepsThirtyDays(card: Flashcard, today: Day)
    requires card.stage >= MasteredStage
    ensures Answered(card, true, today).stage == MasteredStage
    ensures Answered(card, true, today).nextReviewDate == today + 30
  {
  }

  /** Higher stages never wait less: the success interval grows with the stage reached. */
  lemma SuccessIntervalMonotone(a: nat, b: nat)
    requires 1 <= a <= b
    ensures SuccessInterval(a) <= SuccessInterval(b)
    ensures b <= MasteredStage && a < b ==> SuccessInterval(a) < SuccessInterval(b)
  {
  }

  /** `k` successful reviews in a row, each taken on the day the card falls due. */
  function SuccessStreak(card: Flashcard, k: nat): Flashcard
    decreases k
  {
    if k == 0 then card else SuccessStreak(Answered(card, true, card.nextReviewDate), k - 1)
  }

  /** After `k` successes in a row the stage is `min(stage + k, 5)`. */
  lemma {:induction false} StreakStage(card: Flashcard, k: nat)
    requires StageInRange(card)
    ensures SuccessStreak(card, k).stage
      == (if card.stage + k <= MasteredStage then card.stage + k else MasteredStage)
    decreases k
  {
    if k > 0 {
      var next := Answered(card, true, card.nextReviewDate);
      assert MasteredStage == 5;
      assert next.stage == (if card.stage + 1 <= MasteredStage then card.stage + 1 else MasteredStage);
      StreakStage(next, k - 1);
      assert SuccessStreak(card, k) == SuccessStreak(next, k - 1);
    }
  }

  /** Five successes in a row master any card, and from then on it is reviewed every 30 days. */
  lemma FiveSuccessesMaster(card: Flashcard, today: Day)
    requires StageInRange(card)
    ensures SuccessStreak(card, 5).stage == MasteredStage
    ensures Answered(SuccessStreak(card, 5), true, today).nextReviewDate == today + 30
  {
    StreakStage(card, 5);
  }

  // ---------------------------------------------------------------------------
  // notes and cards
  // ---------------------------------------------------------------------------

  /** Applies `f` to every note with id `id` and keeps the rest (the source's `map(n => n.id === id ? … : n)`). */
  function EditNotes(kb: seq<KnowledgeNote>, id: Id, f: KnowledgeNote -> KnowledgeNote): (r: seq<KnowledgeNote>)
    ensures |r| == |kb|
    ensures forall k :: 0 <= k < |kb| && kb[k].id != id ==> r[k] == kb[k]
    ensures forall k :: 0 <= k < |kb| && kb[k].id == id ==> r[k] == f(kb[k])
  {
    seq(|kb|, k requires 0 <= k < |kb| => if kb[k].id == id then f(kb[k]) else kb[k])
  }

  /** `newNoteCategory || 'General'`. */
  function CategoryOrDefault(category: string): string {
    if category == "" then "General" else category
  }

  /** handleAddNote: a note with a non-blank title goes to the front, empty and without cards. */
  function AddNote(kb: seq<KnowledgeNote>, id: Id, title: string, category: string, today: Day): (r: seq<KnowledgeNote>)
    ensures IsBlank(title) ==> r == kb
    ensures !IsBlank(title) ==> r == [KnowledgeNote(id, title, "", CategoryOrDefault(category), today, [])] + kb
  {
    if IsBlank(title) then kb
    else [KnowledgeNote(id, title, "", CategoryOrDefault(category), today, [])] + kb
  }

  function NoteHasId(id: Id): KnowledgeNote -> bool {
    (n: KnowledgeNote) => n.id == id
  }

  /** handleDeleteNote: `knowledgeBase.filter(n => n.id !== id)`, which keeps the other notes in order. */
  function DeleteNote(kb: seq<KnowledgeNote>, id: Id): (r: seq<KnowledgeNote>)
    ensures |r| + Count(kb, NoteHasId(id)) == |kb|
    ensures forall n :: n in r <==> n in kb && n.id != id
  {
    FilterMembers(kb, NoteHasId(id), false);
    FilterPartition(kb, NoteHasId(id));
    Filter(kb, NoteHasId(id), false)
  }

  predicate NoNoteWithId(kb: seq<KnowledgeNote>, id: Id) {
    forall k :: 0 <= k < |kb| ==> kb[k].id != id
  }

  /** Deleting an id no note carries changes nothing. */
  lemma DeleteAbsentNote(kb: seq<KnowledgeNote>, id: Id)
    requires NoNoteWithId(kb, id)
    ensures DeleteNote(kb, id) == kb
  {
    FilterAllPass(kb, NoteHasId(id), false);
  }

  /** Adding a note under a fresh id and deleting that id restores the knowledge base. */
  lemma AddThenDeleteNote(kb: seq<KnowledgeNote>, id: Id, title: string, category: string, today: Day)
    requires NoNoteWithId(kb, id)
    ensures DeleteNote(AddNote(kb, id, title, category, today), id) == kb
  {
    DeleteAbsentNote(kb, id);
    if !IsBlank(title) {
      var note := KnowledgeNote(id, title, "", CategoryOrDefault(category), today, []);
      FilterConcat([note], kb, NoteHasId(id), false);
      FilterNonePass([note], NoteHasId(id), false);
    }
  }

  /** handleUpdateNoteContent: the selected note gets the new content; nothing happens without a selection. */
  function UpdateNoteContent(kb: seq<KnowledgeNote>, selected: Option<Id>, content: string): (r: seq<KnowledgeNote>)
    ensures |r| == |kb|
    ensures selected.None? ==> r == kb
    ensures forall k :: 0 <= k < |kb| && Some(kb[k].id) != selected ==> r[k] == kb[k]
    ensures forall k :: 0 <= k < |kb| && Some(kb[k].id) == selected ==>
      r[k].content == content && r[k].(content := kb[k].content) == kb[k]
  {
    if selected.None? then kb else EditNotes(kb, selected.value, (n: KnowledgeNote) => n.(content := content))
  }

  /** The title field of the open note: renames it as typed. */
  function RenameNote(kb: seq<KnowledgeNote>, selected: Id, title: string): (r: seq<KnowledgeNote>)
    ensures |r| == |kb|
    ensures forall k :: 0 <= k < |kb| && kb[k].id != selected ==> r[k] == kb[k]
    ensures forall k :: 0 <= k < |kb| && kb[k].id == selected ==>
      r[k].title == title && r[k].(title := kb[k].title) == kb[k]
  {
    EditNotes(kb, selected, (n: KnowledgeNote) => n.(title := title))
  }

  /** A card as addFlashcard creates it: stage 0, due today, never reviewed. */
  function NewCard(id: Id, question: string, answer: string, today: Day): Flashcard {
    Flashcard(id, question, answer, 0, today, None)
  }

  /**
   * addFlashcard: refused without a selected note or when the question or answer is blank;
   * otherwise the card is appended to the selected note.
   */
  function AddCard(kb: seq<KnowledgeNote>, selected: Option<Id>, id: Id, question: string, answer: string,
                   today: Day): (r: seq<KnowledgeNote>)
    ensures |r| == |kb|
    ensures selected.None? || IsBlank(question) || IsBlank(answer) ==> r == kb
    ensures forall k :: 0 <= k < |kb| ==>
      r[k].(flashcards := kb[k].flashcards) == kb[k] && kb[k].flashcards <= r[k].flashcards
    ensures forall k :: 0 <= k < |kb| && r[k] != kb[k] ==>
      selected == Some(kb[k].id) && r[k].flashcards == kb[k].flashcards + [NewCard(id, question, answer, today)]
    ensures !(selected.None? || IsBlank(question) || IsBlank(answer)) ==>
      forall k :: 0 <= k < |kb| && kb[k].id == selected.value ==>
        r[k].flashcards == kb[k].flashcards + [NewCard(id, question, answer, today)]
  {
    if selected.None? || IsBlank(question) || IsBlank(answer) then kb
    else AppendCard(kb, selected.value, NewCard(id, question, answer, today))
  }

  /** Appends `card` to the cards of every note with id `target`; every other note is kept. */
  function AppendCard(kb: seq<KnowledgeNote>, target: Id, card: Flashcard): (r: seq<KnowledgeNote>)
    ensures |r| == |kb|
    ensures forall k :: 0 <= k < |kb| ==> r[k].(flashcards := kb[k].flashcards) == kb[k]
    ensures forall k :: 0 <= k < |kb| && kb[k].id != target ==> r[k] == kb[k]
    ensures forall k :: 0 <= k < |kb| && kb[k].id == target ==> r[k].flashcards == kb[k].flashcards + [card]
  {
    EditNotes(kb, target, (n: KnowledgeNote) => n.(flashcards := n.flashcards + [card]))
  }

  function CardHasId(id: Id): Flashcard -> bool {
    (c: Flashcard) => c.id == id
  }

  /** `flashcards.filter(c => c.id !== cardId)`: the cards whose id differs, in order. */
  function RemoveCard(cards: seq<Flashcard>, id: Id): (r: seq<Flashcard>)
    ensures |r| + Count(cards, CardHasId(id)) == |cards|
    ensures forall c :: c in r <==> c in cards && c.id != id
  {
    FilterMembers(cards, CardHasId(id), false);
    FilterPartition(cards, CardHasId(id));
    Filter(cards, CardHasId(id), false)
  }

  /** deleteFlashcard: removes the card from the selected note; nothing happens without a selection. */
  function DeleteCard(kb: seq<KnowledgeNote>, selected: Option<Id>, id: Id): (r: seq<KnowledgeNote>)
    ensures |r| == |kb|
    ensures forall k :: 0 <= k < |kb| ==> r[k].(flashcards := kb[k].flashcards) == kb[k]
    ensures forall k :: 0 <= k < |kb| && selected != Some(kb[k].id) ==> r[k] == kb[k]
    ensures forall k :: 0 <= k < |kb| && selected == Some(kb[k].id) ==>
      r[k].flashcards == RemoveCard(kb[k].flashcards, id)
    ensures forall k, c :: 0 <= k < |kb| && selected == Some(kb[k].id) ==>
      (c in r[k].flashcards <==> c in kb[k].flashcards && c.id != id)
  {
    if selected.None? then kb else EditNotes(kb, selected.value, (n: KnowledgeNote) => n.(flashcards := RemoveCard(n.flashcards, id)))
  }

  predicate NoCardWithId(cards: seq<Flashcard>, id: Id) {
    forall j :: 0 <= j < |cards| ==> cards[j].id != id
  }

  lemma RemoveAbsentCard(cards: seq<Flashcard>, extra: seq<Flashcard>, id: Id)
    requires NoCardWithId(cards, id) && forall j :: 0 <= j < |extra| ==> extra[j].id == id
    ensures RemoveCard(cards + extra, id) == cards
  {
    FilterConcat(cards, extra, CardHasId(id), false);
    FilterAllPass(cards, CardHasId(id), false);
    FilterNonePass(extra, CardHasId(id), false);
  }

  /**
   * Adding a card under an id the selected note does not use yet, then deleting that id from the
   * same note, restores the knowledge base.
   */
  lemma AddThenDeleteCard(kb: seq<KnowledgeNote>, selected: Id, id: Id, question: string, answer: string, today: Day)
    requires forall k :: 0 <= k < |kb| && kb[k].id == selected ==> NoCardWithId(kb[k].flashcards, id)
    ensures DeleteCard(AddCard(kb, Some(selected), id, question, answer, today), Some(selected), id) == kb
  {
    var r := AddCard(kb, Some(selected), id, question, answer, today);
    var r2 := DeleteCard(r, Some(selected), id);
    forall k | 0 <= k < |kb|
      ensures r2[k] == kb[k]
    {
      if kb[k].id == selected {
        AddThenDeleteCardIn(kb, k, id, question, answer, today);
      }
    }
  }

  /** The selected note's cards come back unchanged. */
  lemma AddThenDeleteCardIn(kb: seq<KnowledgeNote>, k: nat, id: Id, question: string, answer: string, today: Day)
    requires k < |kb| && NoCardWithId(kb[k].flashcards, id)
    ensures DeleteCard(AddCard(kb, Some(kb[k].id), id, question, answer, today), Some(kb[k].id), id)[k] == kb[k]
  {
    var selected := kb[k].id;
    var r := AddCard(kb, Some(selected), id, question, answer, today);
    var extra := if r == kb then [] else [NewCard(id, question, answer, today)];
    assert r[k].flashcards == kb[k].flashcards + extra;
    RemoveAbsentCard(kb[k].flashcards, extra, id);
    if r == kb {
      assert kb[k].flashcards + [] == kb[k].flashcards;
    }
  }

  // ---------------------------------------------------------------------------
  // due cards and counters
  // ---------------------------------------------------------------------------

  /** `card.nextReviewDate <= todayStr`; Calendar.DateTextOrder makes the string test this one. */
  predicate IsDue(card: Flashcard, today: Day) {
    card.nextReviewDate <= today
  }

  function DueOn(today: Day): Flashcard -> bool {
    (c: Flashcard) => IsDue(c, today)
  }

  /** The due cards of a list, in order. */
  function DueIn(cards: seq<Flashcard>, today: Day): (r: seq<Flashcard>)
    ensures |r| <= |cards|
    ensures forall c :: c in r <==> c in cards && IsDue(c, today)
  {
    FilterMembers(cards, DueOn(today), true);
    Filter(cards, DueOn(today), true)
  }

  /** Every card of the knowledge base, note by note and in card order within a note. */
  function AllCards(kb: seq<KnowledgeNote>): (r: seq<Flashcard>)
    ensures forall c :: c in r <==> exists k :: 0 <= k < |kb| && c in kb[k].flashcards
  {
    if kb == [] then []
    else
      var init := kb[..|kb| - 1];
      assert forall k :: 0 <= k < |init| ==> init[k] == kb[k];
      AllCards(init) + kb[|kb| - 1].flashcards
  }

  /** The queue startReview builds: the due cards of each note in turn. */
  function DueCards(kb: seq<KnowledgeNote>, today: Day): seq<Flashcard> {
    if kb == [] then [] else DueCards(kb[..|kb| - 1], today) + DueIn(kb[|kb| - 1].flashcards, today)
  }

  lemma DueInStep(cards: seq<Flashcard>, j: nat, today: Day)
    requires j < |cards|
    ensures DueIn(cards[..j + 1], today)
         == DueIn(cards[..j], today) + (if IsDue(cards[j], today) then [cards[j]] else [])
  {
    assert cards[..j + 1][..j] == cards[..j];
  }

  lemma DueCardsStep(kb: seq<KnowledgeNote>, i: nat, today: Day)
    requires i < |kb|
    ensures DueCards(kb[..i + 1], today) == DueCards(kb[..i], today) + DueIn(kb[i].flashcards, today)
  {
    assert kb[..i + 1][..i] == kb[..i];
  }

  /** The queue is exactly the due cards of the knowledge base, in note order and then card order. */
  lemma {:induction false} DueCardsFilterAll(kb: seq<KnowledgeNote>, today: Day)
    ensures DueCards(kb, today) == DueIn(AllCards(kb), today)
  {
    if kb != [] {
      DueCardsFilterAll(kb[..|kb| - 1], today);
      FilterConcat(AllCards(kb[..|kb| - 1]), kb[|kb| - 1].flashcards, DueOn(today), true);
    }
  }

  /** A card is queued exactly when it belongs to some note and is due. */
  lemma DueCardsMembers(kb: seq<KnowledgeNote>, today: Day, c: Flashcard)
    ensures c in DueCards(kb, today) <==> (exists k :: 0 <= k < |kb| && c in kb[k].flashcards) && IsDue(c, today)
  {
    DueCardsFilterAll(kb, today);
  }

  /** `knowledgeBase.reduce((acc, n) => acc + n.flashcards.length, 0)`. */
  function TotalCards(kb: seq<KnowledgeNote>): (r: nat)
    ensures r == |AllCards(kb)|
  {
    if kb == [] then 0 else TotalCards(kb[..|kb| - 1]) + |kb[|kb| - 1].flashcards|
  }

  /**
   * The dueCount stat: the same reduce over the due cards of each note. It agrees with the
   * queue startReview would build, and never exceeds the card total.
   */
  function DueCount(kb: seq<KnowledgeNote>, today: Day): (r: nat)
    ensures r == |DueCards(kb, today)|
    ensures r <= TotalCards(kb)
  {
    if kb == [] then 0 else DueCount(kb[..|kb| - 1], today) + |DueIn(kb[|kb| - 1].flashcards, today)|
  }

  /** A card just added to an existing selected note is in the queue the same day. */
  lemma NewCardIsDue(kb: seq<KnowledgeNote>, selected: Id, id: Id, question: string, answer: string, today: Day)
    requires !IsBlank(question) && !IsBlank(answer)
    requires exists k :: 0 <= k < |kb| && kb[k].id == selected
    ensures NewCard(id, question, answer, today) in DueCards(AddCard(kb, Some(selected), id, question, answer, today), today)
  {
    var r := AddCard(kb, Some(selected), id, question, answer, today);
    var c := NewCard(id, question, answer, today);
    var k :| 0 <= k < |kb| && kb[k].id == selected;
    assert r[k].flashcards == kb[k].flashcards + [c];
    assert c in r[k].flashcards;
    DueCardsMembers(r, today, c);
  }

  /** Edits to titles and contents leave the queue as it was. */
  lemma TextEditsKeepQueue(kb: seq<KnowledgeNote>, id: Id, text: string, today: Day)
    ensures DueCards(UpdateNoteContent(kb, Some(id), text), today) == DueCards(kb, today)
    ensures DueCards(RenameNote(kb, id, text), today) == DueCards(kb, today)
  {
    SameCardsSameQueue(kb, UpdateNoteContent(kb, Some(id), text), today);
    SameCardsSameQueue(kb, RenameNote(kb, id, text), today);
  }

  lemma {:induction false} SameCardsSameQueue(a: seq<KnowledgeNote>, b: seq<KnowledgeNote>, today: Day)
    requires |a| == |b| && forall k :: 0 <= k < |a| ==> a[k].flashcards == b[k].flashcards
    ensures DueCards(a, today) == DueCards(b, today)
  {
    if a != [] {
      SameCardsSameQueue(a[..|a| - 1], b[..|b| - 1], today);
    }
  }

  // ---------------------------------------------------------------------------
  // writing an answer back
  // ---------------------------------------------------------------------------

  /** `flashcards.findIndex(c => c.id === id)`: the first position holding that id. */
  function FindCard(cards: seq<Flashcard>, id: Id): (r: Option<nat>)
    ensures r.Some? ==> r.value < |cards| && cards[r.value].id == id
                        && forall j :: 0 <= j < r.value ==> cards[j].id != id
    ensures r.None? ==> NoCardWithId(cards, id)
  {
    var i := FindIndex(cards, CardHasId(id));
    if i < 0 then None else Some(i)
  }

  /** The note with the first card of `card.id` replaced by `card`. */
  function WriteCard(note: KnowledgeNote, card: Flashcard): (r: KnowledgeNote)
    ensures r.(flashcards := note.flashcards) == note && |r.flashcards| == |note.flashcards|
    ensures forall j :: 0 <= j < |note.flashcards| && note.flashcards[j].id != card.id ==>
              r.flashcards[j] == note.flashcards[j]
    ensures !NoCardWithId(note.flashcards, card.id) ==> card in r.flashcards
    ensures FindCard(note.flashcards, card.id).Some? ==>
      r.flashcards == note.flashcards[FindCard(note.flashcards, card.id).value := card]
    ensures FindCard(note.flashcards, card.id).None? ==> r == note
  {
    match FindCard(note.flashcards, card.id)
    case None => note
    case Some(i) =>
      assert note.flashcards[i := card][i] == card;
      note.(flashcards := note.flashcards[i := card])
  }

  /**
   * processReview's update of the knowledge base: in every note, the first card carrying the
   * answered card's id is replaced; every other card and every other field stays as it was.
   */
  function WriteBack(kb: seq<KnowledgeNote>, card: Flashcard): (r: seq<KnowledgeNote>)
    ensures |r| == |kb|
    ensures forall k :: 0 <= k < |kb| ==>
      r[k].(flashcards := kb[k].flashcards) == kb[k] && |r[k].flashcards| == |kb[k].flashcards|
    ensures forall k, j ::
              0 <= k < |kb| && 0 <= j < |kb[k].flashcards| && kb[k].flashcards[j].id != card.id ==>
              r[k].flashcards[j] == kb[k].flashcards[j]
    ensures forall k :: 0 <= k < |kb| && !NoCardWithId(kb[k].flashcards, card.id) ==> card in r[k].flashcards
  {
    seq(|kb|, k requires 0 <= k < |kb| => WriteCard(kb[k], card))
  }

  /** The same notes with the same card ids in the same places; only card contents may differ. */
  predicate SameShape(kb: seq<KnowledgeNote>, r: seq<KnowledgeNote>) {
    |r| == |kb|
    && forall k :: 0 <= k < |kb| ==>
         r[k].(flashcards := kb[k].flashcards) == kb[k] && |r[k].flashcards| == |kb[k].flashcards|
         && forall j :: 0 <= j < |kb[k].flashcards| ==> r[k].flashcards[j].id == kb[k].flashcards[j].id
  }

  /**
   * A whole review session: `outcomes[i]` answered to `queue[i]` for each i in turn, each answer
   * written back as processReview does. The notes keep their shape.
   */
  function AnswerFold(kb: seq<KnowledgeNote>, queue: seq<Flashcard>, outcomes: seq<bool>, today: Day)
    : (r: seq<KnowledgeNote>)
    requires |queue| == |outcomes|
    ensures SameShape(kb, r)
  {
    if queue == [] then kb
    else
      var n := |queue| - 1;
      var prev := AnswerFold(kb, queue[..n], outcomes[..n], today);
      var card := Answered(queue[n], outcomes[n], today);
      var r := WriteBack(prev, card);
      forall k, j | 0 <= k < |prev| && 0 <= j < |prev[k].flashcards|
        ensures r[k].flashcards[j].id == prev[k].flashcards[j].id
      {
        if prev[k].flashcards[j].id == card.id {
          var i := FindCard(prev[k].flashcards, card.id).value;
          assert r[k].flashcards == prev[k].flashcards[i := card];
        }
      }
      r
  }

  /**
   * With distinct ids in the queue, every queued card ends up answered, exactly once and for
   * today, in every note that holds its id: no write is lost and none overwrites another.
   */
  lemma {:induction false} SessionAnswersEveryCard(kb: seq<KnowledgeNote>, queue: seq<Flashcard>,
                                                   outcomes: seq<bool>, today: Day)
    requires |queue| == |outcomes|
    requires forall i, j :: 0 <= i < j < |queue| ==> queue[i].id != queue[j].id
    ensures forall i, k :: 0 <= i < |queue| && 0 <= k < |kb| && !NoCardWithId(kb[k].flashcards, queue[i].id) ==>
      Answered(queue[i], outcomes[i], today) in AnswerFold(kb, queue, outcomes, today)[k].flashcards
  {
    if queue != [] {
      var n := |queue| - 1;
      var prev := AnswerFold(kb, queue[..n], outcomes[..n], today);
      var card := Answered(queue[n], outcomes[n], today);
      var r := AnswerFold(kb, queue, outcomes, today);
      assert r == WriteBack(prev, card);
      SessionAnswersEveryCard(kb, queue[..n], outcomes[..n], today);
      forall i, k | 0 <= i < |queue| && 0 <= k < |kb| && !NoCardWithId(kb[k].flashcards, queue[i].id)
        ensures Answered(queue[i], outcomes[i], today) in r[k].flashcards
      {
        var j :| 0 <= j < |kb[k].flashcards| && kb[k].flashcards[j].id == queue[i].id;
        if i == n {
          assert prev[k].flashcards[j].id == card.id;
        } else {
          assert queue[..n][i] == queue[i] && outcomes[..n][i] == outcomes[i];
          var c := Answered(queue[i], outcomes[i], today);
          assert c in prev[k].flashcards;
          var m :| 0 <= m < |prev[k].flashcards| && prev[k].flashcards[m] == c;
          assert r[k].flashcards[m] == c;
        }
      }
    }
  }

  /** Every card of the knowledge base has a stage in 0..5. */
  predicate StagesInRange(kb: seq<KnowledgeNote>) {
    forall k, j :: 0 <= k < |kb| && 0 <= j < |kb[k].flashcards| ==> StageInRange(kb[k].flashcards[j])
  }

  /** Answers, additions and deletions all keep every stage within 0..5. */
  lemma StagesStayInRange(kb: seq<KnowledgeNote>, card: Flashcard, success: bool, today: Day,
                          selected: Option<Id>, id: Id, question: string, answer: string)
    requires StagesInRange(kb)
    ensures StagesInRange(WriteBack(kb, Answered(card, success, today)))
    ensures StagesInRange(AddCard(kb, selected, id, question, answer, today))
    ensures StagesInRange(DeleteCard(kb, selected, id))
  {
    ReviewKeepsStages(kb, card, success, today);
    AddCardKeepsStages(kb, selected, id, question, answer, today);
    DeleteCardKeepsStages(kb, selected, id);
  }

  lemma ReviewKeepsStages(kb: seq<KnowledgeNote>, card: Flashcard, success: bool, today: Day)
    requires StagesInRange(kb)
    ensures StagesInRange(WriteBack(kb, Answered(card, success, today)))
  {
    var w := WriteBack(kb, Answered(card, success, today));
    forall k, j | 0 <= k < |w| && 0 <= j < |w[k].flashcards|
      ensures StageInRange(w[k].flashcards[j])
    {
      var i := FindCard(kb[k].flashcards, card.id);
      assert w[k] == WriteCard(kb[k], Answered(card, success, today));
    }
  }

  lemma AddCardKeepsStages(kb: seq<KnowledgeNote>, selected: Option<Id>, id: Id, question: string, answer: string, today: Day)
    requires StagesInRange(kb)
    ensures StagesInRange(AddCard(kb, selected, id, question, answer, today))
  {
    var a := AddCard(kb, selected, id, question, answer, today);
    forall k, j | 0 <= k < |a| && 0 <= j < |a[k].flashcards|
      ensures StageInRange(a[k].flashcards[j])
    {
      if a != kb && kb[k].id == selected.value && j == |kb[k].flashcards| {
      } else {
        assert a[k].flashcards[j] == kb[k].flashcards[j];
      }
    }
  }

  lemma DeleteCardKeepsStages(kb: seq<KnowledgeNote>, selected: Option<Id>, id: Id)
    requires StagesInRange(kb)
    ensures StagesInRange(DeleteCard(kb, selected, id))
  {
    var d := DeleteCard(kb, selected, id);
    forall k, j | 0 <= k < |d| && 0 <= j < |d[k].flashcards|
      ensures StageInRange(d[k].flashcards[j])
    {
      var c := d[k].flashcards[j];
      assert c in kb[k].flashcards;
    }
  }

  // ---------------------------------------------------------------------------
  // the review session
  // ---------------------------------------------------------------------------

  datatype View = LIBRARY | REVIEW

  /** startReview's inner loop: the due cards of one note, in order. */
  method CollectDueIn(cards: seq<Flashcard>, today: Day) returns (due: seq<Flashcard>)
    ensures due == DueIn(cards, today)
  {
    due := [];
    var j := 0;
    while j < |cards|
      invariant 0 <= j <= |cards|
      invariant due == DueIn(cards[..j], today)
    {
      DueInStep(cards, j, today);
      if cards[j].nextReviewDate <= today {
        due := due + [cards[j]];
      }
      j := j + 1;
    }
    assert cards[..j] == cards;
  }

  /** startReview's outer loop: the due cards of every note, note by note. */
  method CollectDue(kb: seq<KnowledgeNote>, today: Day) returns (due: seq<Flashcard>)
    ensures due == DueCards(kb, today)
  {
    due := [];
    var i := 0;
    while i < |kb|
      invariant 0 <= i <= |kb|
      invariant due == DueCards(kb[..i], today)
    {
      var noteDue := CollectDueIn(kb[i].flashcards, today);
      DueCardsStep(kb, i, today);
      due := due + noteDue;
      i := i + 1;
    }
    assert kb[..i] == kb;
  }

  /** The Learning screen's session state together with the knowledge base it edits. */
  class LearningScreen {
    var knowledgeBase: seq<KnowledgeNote>
    var view: View
    var reviewQueue: seq<Flashcard>
    var currentReviewIndex: nat
    var isFlipped: bool
    var sessionComplete: bool

    /** The review view is only shown over a non-empty queue, and the index always points into it. */
    predicate Valid()
      reads this
    {
      (view == REVIEW ==> reviewQueue != [])
      && (currentReviewIndex < |reviewQueue| || (reviewQueue == [] && currentReviewIndex == 0))
    }

    constructor(kb: seq<KnowledgeNote>)
      ensures Valid()
      ensures knowledgeBase == kb && view == LIBRARY && reviewQueue == []
      ensures currentReviewIndex == 0 && !isFlipped && !sessionComplete
    {
      knowledgeBase := kb;
      view := LIBRARY;
      reviewQueue := [];
      currentReviewIndex := 0;
      isFlipped := false;
      sessionComplete := false;
    }

    /**
     * startReview: collects the due cards note by note. With none due the state is left as it
     * was; otherwise the session starts on the first card, unflipped and not complete. It starts
     * exactly when the due counter (which enables the start button) is positive.
     */
    method StartReview(today: Day) returns (started: bool)
      requires Valid()
      modifies this
      ensures Valid()
      ensures started == (DueCount(knowledgeBase, today) > 0)
      ensures !started ==> unchanged(this)
      ensures started ==>
        knowledgeBase == old(knowledgeBase) && reviewQueue == DueCards(knowledgeBase, today)
        && currentReviewIndex == 0 && !isFlipped && !sessionComplete && view == REVIEW
    {
      var due := CollectDue(knowledgeBase, today);
      if |due| == 0 {
        return false;
      }
      reviewQueue := due;
      currentReviewIndex := 0;
      isFlipped := false;
      sessionComplete := false;
      view := REVIEW;
      started := true;
    }

    /** The card face: clicking it reveals the answer, once. */
    method Reveal()
      requires Valid() && view == REVIEW && !sessionComplete
      modifies this
      ensures Valid() && isFlipped
      ensures knowledgeBase == old(knowledgeBase) && view == old(view) && reviewQueue == old(reviewQueue)
      ensures currentReviewIndex == old(currentReviewIndex) && sessionComplete == old(sessionComplete)
    {
      if !isFlipped {
        isFlipped := true;
      }
    }

    /**
     * processReview, reachable only through the answer buttons shown after reveal: writes the
     * answered card back, then moves to the next card or, after the last one, completes the
     * session (the index then stays on the last card).
     */
    method ProcessReview(success: bool, today: Day)
      requires Valid() && view == REVIEW && !sessionComplete && isFlipped
      modifies this
      ensures Valid() && view == REVIEW && reviewQueue == old(reviewQueue)
      ensures knowledgeBase
        == WriteBack(old(knowledgeBase), Answered(old(reviewQueue[currentReviewIndex]), success, today))
      ensures old(currentReviewIndex) < |reviewQueue| - 1 ==>
        currentReviewIndex == old(currentReviewIndex) + 1 && !isFlipped && !sessionComplete
      ensures old(currentReviewIndex) == |reviewQueue| - 1 ==>
        currentReviewIndex == old(currentReviewIndex) && isFlipped && sessionComplete
    {
      var currentCard := reviewQueue[currentReviewIndex];
      knowledgeBase := WriteBack(knowledgeBase, Answered(currentCard, success, today));
      if currentReviewIndex < |reviewQueue| - 1 {
        currentReviewIndex := currentReviewIndex + 1;
        isFlipped := false;
      } else {
        sessionComplete := true;
      }
    }

    /** The back buttons: return to the library, leaving the session state as it is. */
    method BackToLibrary()
      requires Valid()
      modifies this
      ensures Valid() && view == LIBRARY
      ensures knowledgeBase == old(knowledgeBase) && reviewQueue == old(reviewQueue)
      ensures currentReviewIndex == old(currentReviewIndex) && isFlipped == old(isFlipped)
      ensures sessionComplete == old(sessionComplete)
    {
      view := LIBRARY;
    }

    /**
     * Revealing and answering every card of a freshly started session always ends it complete,
     * with one write-back per queued card, in queue order.
     */
    method AnswerAll(outcomes: seq<bool>, today: Day)
      requires Valid() && view == REVIEW && !sessionComplete && !isFlipped && currentReviewIndex == 0
      requires |outcomes| == |reviewQueue|
      modifies this
      ensures Valid() && view == REVIEW && reviewQueue == old(reviewQueue)
      ensures sessionComplete && currentReviewIndex == |reviewQueue| - 1
      ensures knowledgeBase == AnswerFold(old(knowledgeBase), reviewQueue, outcomes, today)
    {
      var k := 0;
      while k < |outcomes|
        invariant 0 <= k <= |outcomes|
        invariant Valid() && view == REVIEW && reviewQueue == old(reviewQueue)
        invariant k < |outcomes| ==> currentReviewIndex == k && !sessionComplete
        invariant k == |outcomes| ==> sessionComplete && currentReviewIndex == k - 1
        invariant knowledgeBase == AnswerFold(old(knowledgeBase), reviewQueue[..k], outcomes[..k], today)
      {
        Reveal();
        ProcessReview(outcomes[k], today);
        assert reviewQueue[..k + 1][..k] == reviewQueue[..k] && outcomes[..k + 1][..k] == outcomes[..k];
        k := k + 1;
      }
      assert reviewQueue[..k] == reviewQueue && outcomes[..k] == outcomes;
    }
  }

  // ---------------------------------------------------------------------------
  // editing through the open note's copy
  // ---------------------------------------------------------------------------

  /** Replaces every note carrying `note.id` by `note`. */
  function ReplaceNote(kb: seq<KnowledgeNote>, note: KnowledgeNote): (r: seq<KnowledgeNote>)
    ensures |r| == |kb|
    ensures forall k :: 0 <= k < |kb| ==> r[k] == (if kb[k].id == note.id then note else kb[k])
  {
    EditNotes(kb, note.id, (n: KnowledgeNote) => note)
  }

  /**
   * addFlashcard as written: the card is appended to the screen's copy of the open note, taken
   * when the note was opened, and that copy replaces the note in the knowledge base.
   */
  function AddCardFromCopy(kb: seq<KnowledgeNote>, selected: Option<KnowledgeNote>, id: Id, question: string,
                           answer: string, today: Day): (r: seq<KnowledgeNote>)
    ensures |r| == |kb|
    ensures selected.None? || IsBlank(question) || IsBlank(answer) ==> r == kb
    ensures forall k :: 0 <= k < |kb| && r[k] != kb[k] ==>
      selected.Some? && kb[k].id == selected.value.id && r[k].flashcards == selected.value.flashcards + [NewCard(id, question, answer, today)]
    ensures !(selected.None? || IsBlank(question) || IsBlank(answer)) ==>
      forall k :: 0 <= k < |kb| && kb[k].id == selected.value.id ==>
        r[k] == selected.value.(flashcards := selected.value.flashcards + [NewCard(id, question, answer, today)])
  {
    if selected.None? || IsBlank(question) || IsBlank(answer) then kb
    else
      var note := selected.value;
      ReplaceNote(kb, note.(flashcards := note.flashcards + [NewCard(id, question, answer, today)]))
  }

  /** While the copy matches the knowledge base, editing through it is the same as AddCard. */
  lemma CopyInSyncAgrees(kb: seq<KnowledgeNote>, note: KnowledgeNote, id: Id, question: string, answer: string,
                         today: Day)
    requires forall k :: 0 <= k < |kb| && kb[k].id == note.id ==> kb[k] == note
    ensures AddCardFromCopy(kb, Some(note), id, question, answer, today)
         == AddCard(kb, Some(note.id), id, question, answer, today)
  {
  }

  /** A one-card note, as opened in the library before a review. */
  function SampleNote(): KnowledgeNote {
    KnowledgeNote("n1", "t", "", "General", 0, [Flashcard("c1", "q", "a", 0, 0, None)])
  }

  /** The knowledge base after the sample card is answered correctly on day 0. */
  function SampleReviewed(): seq<KnowledgeNote> {
    WriteBack([SampleNote()], Answered(SampleNote().flashcards[0], true, 0))
  }

  lemma SampleReviewMovesUp()
    ensures SampleReviewed()[0].flashcards == [Answered(SampleNote().flashcards[0], true, 0)]
    ensures SampleReviewed()[0].flashcards[0].stage == 1
  {
    var note := SampleNote();
    var answered := Answered(note.flashcards[0], true, 0);
    assert FindCard(note.flashcards, "c1") == Some(0);
    assert SampleReviewed()[0] == WriteCard(note, answered);
  }

  lemma SampleCopyAddsCard()
    ensures AddCardFromCopy(SampleReviewed(), Some(SampleNote()), "c2", "q2", "a2", 0)[0].flashcards
         == SampleNote().flashcards + [NewCard("c2", "q2", "a2", 0)]
  {
    NotBlank("q2");
    NotBlank("a2");
  }

  lemma SampleBaseAddsCard()
    ensures AddCard(SampleReviewed(), Some("n1"), "c2", "q2", "a2", 0)[0].flashcards
         == SampleReviewed()[0].flashcards + [NewCard("c2", "q2", "a2", 0)]
  {
    NotBlank("q2");
    NotBlank("a2");
    SampleReviewMovesUp();
  }

  /**
   * processReview does not refresh the open note's copy, so a review of one of its cards is
   * undone by the next card added through the copy; AddCard keeps it.
   */
  lemma ReviewLostThroughCopy()
    ensures SampleReviewed()[0].flashcards[0].stage == 1
    ensures AddCardFromCopy(SampleReviewed(), Some(SampleNote()), "c2", "q2", "a2", 0)[0].flashcards[0].stage == 0
    ensures AddCard(SampleReviewed(), Some("n1"), "c2", "q2", "a2", 0)[0].flashcards[0].stage == 1
  {
    SampleReviewMovesUp();
    SampleCopyAddsCard();
    SampleBaseAddsCard();
  }

  /** A string starting with a visible character is not blank. */
  lemma NotBlank(s: string)
    requires s != [] && !IsSpace(s[0])
    ensures !IsBlank(s)
  {
    BlankIffAllSpace(s);
  }
}
