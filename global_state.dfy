/** The extension's persisted key/value store (`context.globalState`),
    shared by the holiday cache and the task-board session cookie. */
module Store {

  /** A stored value: a cookie string or the cached holiday dates. */
  datatype Stored = TextValue(text: string) | DatesValue(dates: seq<string>)

  /** The key of the cached holiday dates. */
  const HolidayKey := "holiday"

  class GlobalState {
    var entries: map<string, Stored>

    /** Only the holiday key holds a list of dates; every other key holds text. */
    ghost predicate Valid()
      reads this
    {
      forall k :: k in entries ==> (entries[k].DatesValue? <==> k == HolidayKey)
    }

    constructor ()
      ensures Valid() && entries == map[]
    {
      entries := map[];
    }

    /** `get<string>(key) || ''`. */
    function TextOr(key: string): string
      reads this
    {
      if key in entries && entries[key].TextValue? then entries[key].text else ""
    }

    /** `get<string[]>(key) ?? []`. */
    function DatesOr(key: string): seq<string>
      reads this
    {
      if key in entries && entries[key].DatesValue? then entries[key].dates else []
    }

    /** `update(key, value)`. */
    method Update(key: string, value: Stored)
      requires Valid()
      requires value.DatesValue? <==> key == HolidayKey
      modifies this
      ensures Valid()
      ensures entries == old(entries)[key := value]
    {
      entries := entries[key := value];
    }
  }
}
