/** The persisted entities of the event-listing application, as plain values. */
module Records {

  datatype Option<T> = None | Some(value: T)

  /** A row of the `event` table. `date` is the event instant in whole seconds;
      `userId` is the creating user (the event's author). Nullable text columns
      are strings, with "" standing for an absent value. */
  datatype Event = Event(
    id: int,
    title: string,
    location: string,
    date: int,
    description: string,
    category: string,
    imageUrl: string,
    organizerName: string,
    userId: int)

  /** A row of the `registrations` table: one user's sign-up for one event. */
  datatype Registration = Registration(userId: int, eventId: int, shortInfo: string, createdAt: int)

  /** The part of a `user` row the listing needs. */
  datatype User = User(id: int, username: string)

  /** Who makes a request: nobody logged in, or the logged-in user's id. */
  datatype Viewer = Anonymous | Authenticated(id: int)
}
