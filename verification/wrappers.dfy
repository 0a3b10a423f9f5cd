/** Outcome types shared by the whole model. */
module Wrappers {

  datatype Option<+T> = None | Some(value: T)

  /** The exceptions the views can raise into the framework. */
  datatype Error =
    | DoesNotExist              // Model.objects.get found no row
    | MultipleObjectsReturned   // Model.objects.get found more than one row
    | KeyError(key: string)     // a decoded remote record lacks a key the view indexes

  datatype Result<+T> = Ok(value: T) | Err(error: Error)
}
