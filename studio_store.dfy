/**
 * The session checkpoint of the AI Studio script: five sessionStorage keys holding the ALL-mode
 * flag, the SELECTED-mode queue of hrefs and the success / fail / total counters.
 * Values are typed here instead of being written as strings and read back with parseInt or JSON.parse.
 */
module StudioStore {

  /** A stored value: the literal "true" of the ALL flag, a counter, or the JSON list of hrefs. */
  datatype Value = Str(s: string) | Num(n: nat) | Hrefs(list: seq<string>)

  /** A sessionStorage key: one of the script's five, or a key some other code of the site stored. */
  datatype Key = AllFlag | SelectedQueue | SuccessCount | FailCount | TotalCount | Foreign(name: string)

  /** The key's name in sessionStorage. */
  function Name(k: Key): string
  {
    match k
    case AllFlag => "isAiStudioBulkDeletingAll"
    case SelectedQueue => "isAiStudioBulkDeletingSelected"
    case SuccessCount => "aiStudioBulkDeleteSuccessCount"
    case FailCount => "aiStudioBulkDeleteFailCount"
    case TotalCount => "aiStudioBulkDeleteTotalCount"
    case Foreign(name) => name
  }

  type Store = map<Key, Value>

  /** The three counter keys that clearCounts removes. */
  const COUNT_KEYS: set<Key> := {SuccessCount, FailCount, TotalCount}

  /** The five keys the script owns; every other key of the store belongs to the site. */
  const OWN_KEYS: set<Key> := COUNT_KEYS + {AllFlag, SelectedQueue}

  datatype Counts = Counts(success: nat, fail: nat)

  /** `a` and `b` agree on every key outside `changed`: same presence, same value. */
  ghost predicate SameExcept(a: Store, b: Store, changed: set<Key>)
  {
    forall k :: k !in changed ==> (k in a <==> k in b) && (k in a ==> a[k] == b[k])
  }

  /** parseInt(getItem(key) || '0'): a numeric entry reads as its value, anything else as 0. */
  function ReadNumber(s: Store, key: Key): (n: nat)
    ensures key !in s ==> n == 0
    ensures key in s && s[key].Num? ==> n == s[key].n
    ensures key in s && !s[key].Num? ==> n == 0
  {
    if key in s && s[key].Num? then s[key].n else 0
  }

  /** getCounts: both counters, a missing key reading as 0. */
  function GetCounts(s: Store): (c: Counts)
    ensures SuccessCount !in s ==> c.success == 0
    ensures FailCount !in s ==> c.fail == 0
    ensures SuccessCount in s && s[SuccessCount].Num? ==> c.success == s[SuccessCount].n
    ensures FailCount in s && s[FailCount].Num? ==> c.fail == s[FailCount].n
  {
    Counts(ReadNumber(s, SuccessCount), ReadNumber(s, FailCount))
  }

  /** The store after incrementSuccess. */
  function WithSuccessIncremented(s: Store): (r: Store)
    ensures GetCounts(r) == Counts(GetCounts(s).success + 1, GetCounts(s).fail)
    ensures SuccessCount in r && SameExcept(s, r, {SuccessCount})
  {
    s[SuccessCount := Num(GetCounts(s).success + 1)]
  }

  /** The store after incrementFail. */
  function WithFailIncremented(s: Store): (r: Store)
    ensures GetCounts(r) == Counts(GetCounts(s).success, GetCounts(s).fail + 1)
    ensures FailCount in r && SameExcept(s, r, {FailCount})
  {
    s[FailCount := Num(GetCounts(s).fail + 1)]
  }

  /** The store after resetCounts: both counters written as 0, the total left alone. */
  function WithCountsReset(s: Store): (r: Store)
    ensures GetCounts(r) == Counts(0, 0)
    ensures SuccessCount in r && FailCount in r && r[SuccessCount] == Num(0) && r[FailCount] == Num(0)
    ensures SameExcept(s, r, {SuccessCount, FailCount})
    ensures ReadNumber(r, TotalCount) == ReadNumber(s, TotalCount)
  {
    s[SuccessCount := Num(0)][FailCount := Num(0)]
  }

  /** The store after clearCounts: the success, fail and total keys removed, nothing else touched. */
  function WithCountsCleared(s: Store): (r: Store)
    ensures r.Keys == s.Keys - COUNT_KEYS
    ensures SameExcept(s, r, COUNT_KEYS)
    ensures GetCounts(r) == Counts(0, 0) && ReadNumber(r, TotalCount) == 0
  {
    s - COUNT_KEYS
  }

  /** The store after the SELECTED queue is saved as `hs`. */
  function WithQueueSaved(s: Store, hs: seq<string>): (r: Store)
    ensures SelectedQueue in r && r[SelectedQueue] == Hrefs(hs)
    ensures SameExcept(s, r, {SelectedQueue})
  {
    s[SelectedQueue := Hrefs(hs)]
  }

  lemma SameExceptTrans(a: Store, b: Store, c: Store, x: set<Key>, y: set<Key>)
    requires SameExcept(a, b, x) && SameExcept(b, c, y)
    ensures SameExcept(a, c, x + y)
  {
  }

  lemma SameExceptChain(a: Store, b: Store, c: Store, x: set<Key>, y: set<Key>, z: set<Key>)
    requires SameExcept(a, b, x) && SameExcept(b, c, y) && x <= z && y <= z
    ensures SameExcept(a, c, z)
  {
  }

  lemma SameExceptWiden(a: Store, b: Store, x: set<Key>, y: set<Key>)
    requires SameExcept(a, b, x) && x <= y
    ensures SameExcept(a, b, y)
  {
  }

  /** The script's five keys have five different names, so modelling them as constructors loses nothing. */
  lemma NamesDistinct(a: Key, b: Key)
    requires !a.Foreign? && !b.Foreign? && a != b
    ensures Name(a) != Name(b)
  {
    assert Name(AllFlag)[0] == 'i' && Name(SelectedQueue)[0] == 'i' && Name(SuccessCount)[0] == 'a';
    assert Name(FailCount)[0] == 'a' && Name(TotalCount)[0] == 'a';
    assert Name(AllFlag)[22] == 'A' && Name(SelectedQueue)[22] == 'S';
    assert Name(SuccessCount)[18] == 'S' && Name(FailCount)[18] == 'F' && Name(TotalCount)[18] == 'T';
  }
}
