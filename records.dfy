/**
 * The records the lottery keeps in browser storage. Each of the three storage
 * keys (`raffle_users`, `raffle_awards`, `raffle_winners`) holds a list of them.
 */
module Records {

  datatype Option<T> = None | Some(value: T)

  /** A prize definition: `count` of the `limit` available have been handed out. */
  datatype Prize = Prize(name: string, limit: int, count: int)

  /** One entry of the append-only winners log; `time` is a locale-formatted timestamp. */
  datatype WinnerRecord = WinnerRecord(name: string, award: string, time: string)
}
