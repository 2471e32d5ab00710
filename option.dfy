/** The "none" sentinel of a lookup: the source returns null when no character qualifies. */
datatype Option<T> = None | Some(value: T)
