/** Shapes shared by the booking widget: the optional/result wrappers it needs,
    the abstract calendar day, and the Service and Booking records. */
module Types {

  /** A value that may be absent (a TypeScript `T | undefined`). */
  datatype Option<+T> = None | Some(value: T)

  /** The outcome of a check: the accepted value, or the errors that reject it. */
  datatype Result<+T, +E> = Ok(value: T) | Err(error: E)

  /** Day of the week as `getDay` reports it: 0 = Sunday, ..., 6 = Saturday. */
  type Weekday = w: int | 0 <= w <= 6

  /** A calendar day at local midnight. `index` counts days, so "before today"
      is an integer comparison; `weekday` is what `getDay` would return. */
  datatype Day = Day(index: int, weekday: Weekday)

  /** A bookable offering. `duration` is in minutes; `price` in currency units. */
  datatype Service = Service(
    id: string,
    name: string,
    description: string,
    duration: int,
    price: real,
    image: string)

  /** A booking request as the shared types describe it. */
  datatype Booking = Booking(
    serviceId: string,
    date: Day,
    time: string,
    name: string,
    email: string,
    phone: Option<string>)
}
