/** Shared vocabulary of the habit analytics engine: record identities,
    the signed-in user, and the optional reply of a store call. */
module Common {

  /** Identities of habits, completions, badges and users are opaque strings. */
  type Id = string

  /** A calendar date as a day number: consecutive days differ by one. */
  type Day = int

  datatype Option<+T> = None | Some(value: T)
}
