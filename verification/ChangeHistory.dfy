/**
 The bounded, de-duplicated history every kind of system status is stored in. A kind supplies
 how an item is merged with the newest stored one, when two items count as equal, and which
 items are ignored.
 */
module ChangeHistory {

  const MAX_ITEM: nat := 5

  /** An item with the time it was last reported. */
  datatype Entry<T> = Entry(item: T, reported: int)

  datatype Kind<!T> = Kind(collate: (T, T) -> T, equals: (T, T) -> bool, ignore: T -> bool)

  function Trim<T>(s: seq<T>): seq<T> {
    if |s| > MAX_ITEM then s[1..] else s
  }

  function LastFew<T>(s: seq<T>): seq<T> {
    if |s| > MAX_ITEM then s[|s| - MAX_ITEM..] else s
  }

  /** The item as it will be compared and stored: merged with the newest one, if any. */
  function Merged<T>(k: Kind<T>, report: seq<Entry<T>>, s: T): T {
    if report == [] then s else k.collate(s, report[|report| - 1].item)
  }

  predicate IsChange<T>(k: Kind<T>, report: seq<Entry<T>>, s: T) {
    && !k.ignore(s)
    && (report == [] || !k.equals(report[|report| - 1].item, Merged(k, report, s)))
  }

  /** Store without the bound: a change is appended, anything else only refreshes the time. */
  function Appended<T>(k: Kind<T>, report: seq<Entry<T>>, s: Entry<T>): seq<Entry<T>> {
    if k.ignore(s.item) then report
    else if IsChange(k, report, s.item) then report + [Entry(Merged(k, report, s.item), s.reported)]
    else report[|report| - 1 := report[|report| - 1].(reported := s.reported)]
  }

  class History<T> {
    const kind: Kind<T>
    var report: seq<Entry<T>>

    ghost predicate Valid()
      reads this
    {
      |report| <= MAX_ITEM
    }

    constructor (kind: Kind<T>)
      ensures Valid() && report == [] && this.kind == kind
    {
      this.kind := kind;
      report := [];
    }

    method SetItemInReport(s: Entry<T>) returns (stored: bool)
      requires Valid()
      modifies this
      ensures Valid() && stored == IsChange(kind, old(report), s.item)
      ensures report == Trim(Appended(kind, old(report), s))
    {
      if kind.ignore(s.item) {
        return false;
      }
      var item := s.item;
      if report != [] {
        var back := report[|report| - 1];
        item := kind.collate(item, back.item);
        if kind.equals(back.item, item) {
          report := report[|report| - 1 := back.(reported := s.reported)];
          return false;
        }
      }
      report := report + [Entry(item, s.reported)];
      if |report| > MAX_ITEM {
        report := report[1..];
      }
      return true;
    }

    method SetDefaultItemInReport(s: Entry<T>)
      requires Valid()
      modifies this
      ensures Valid() && report == Trim(old(report) + [s])
    {
      report := report + [s];
      if |report| > MAX_ITEM {
        report := report[1..];
      }
    }
  }

  // --- Runs ------------------------------------------------------------------------------------

  /** The stored history after these events. */
  function Stored<T>(k: Kind<T>, events: seq<Entry<T>>): seq<Entry<T>> {
    if events == [] then []
    else Trim(Appended(k, Stored(k, events[..|events| - 1]), events[|events| - 1]))
  }

  /** The history without its bound. */
  function Full<T>(k: Kind<T>, events: seq<Entry<T>>): seq<Entry<T>> {
    if events == [] then []
    else Appended(k, Full(k, events[..|events| - 1]), events[|events| - 1])
  }

  /** Only the newest entry matters to what an event does, so trimming afterwards loses nothing. */
  lemma TrimCommutes<T>(k: Kind<T>, full: seq<Entry<T>>, s: Entry<T>)
    ensures Trim(Appended(k, LastFew(full), s)) == LastFew(Appended(k, full, s))
  {
    var few := LastFew(full);
    if full != [] {
      assert few[|few| - 1] == full[|full| - 1];
    }
    assert IsChange(k, few, s.item) == IsChange(k, full, s.item);
    assert Merged(k, few, s.item) == Merged(k, full, s.item);
  }

  /**
   After an event that is not ignored the newest entry carries its time. It is the event's item,
   merged with the newest entry before, or that entry itself, if the two count as equal.
   */
  lemma NewestCarriesTime<T>(k: Kind<T>, events: seq<Entry<T>>)
    requires events != []
    ensures var before, after, e := Stored(k, events[..|events| - 1]), Stored(k, events), events[|events| - 1];
            if k.ignore(e.item) then after == before
            else
              && after != [] && after[|after| - 1].reported == e.reported
              && var item := after[|after| - 1].item;
                 if before == [] then item == e.item
                 else
                   var newest := before[|before| - 1].item;
                   item == if k.equals(newest, k.collate(e.item, newest)) then newest else k.collate(e.item, newest)
  {
    var before, e := Stored(k, events[..|events| - 1]), events[|events| - 1];
    var appended := Appended(k, before, e);
    if |appended| > MAX_ITEM {
      assert Trim(appended)[|appended| - 2] == appended[|appended| - 1];
    }
    if k.ignore(e.item) {
      StoredIsTailOfFull(k, events[..|events| - 1]);
    }
  }

  /** Neighbours differ: the later one was a change over the earlier one when it was stored. */
  ghost predicate NoRepeats<T>(k: Kind<T>, s: seq<Entry<T>>) {
    forall i :: 0 < i < |s| ==> !k.equals(s[i - 1].item, s[i].item)
  }

  lemma AppendedKeepsNoRepeats<T>(k: Kind<T>, full: seq<Entry<T>>, s: Entry<T>)
    requires NoRepeats(k, full)
    ensures NoRepeats(k, Appended(k, full, s))
  {
  }

  /**
   Over any events the stored history is the last five entries of the unbounded one, and no
   entry of either repeats the one before it.
   */
  lemma {:induction false} StoredIsTailOfFull<T>(k: Kind<T>, events: seq<Entry<T>>)
    ensures var full := Full(k, events);
            Stored(k, events) == if |full| > 5 then full[|full| - 5..] else full
    ensures NoRepeats(k, Full(k, events)) && NoRepeats(k, Stored(k, events))
  {
    if events != [] {
      var before, e := events[..|events| - 1], events[|events| - 1];
      StoredIsTailOfFull(k, before);
      TrimCommutes(k, Full(k, before), e);
      AppendedKeepsNoRepeats(k, Full(k, before), e);
      hide Appended, Trim;
    }
  }
}
