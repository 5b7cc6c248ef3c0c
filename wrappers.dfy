/** Small result types shared by the model. */
module Wrappers {

  datatype Option<+T> = None | Some(value: T)

  /** The outcome of a call into a collaborator: it either returns a value
      or raises an exception whose text is `message`. */
  datatype Call<+T> = Returned(value: T) | Raised(message: string)
}
