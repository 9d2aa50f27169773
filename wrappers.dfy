/** Option and Result values, and the fatal errors that end the pipeline. */
module Wrappers {

  datatype Option<+T> = None | Some(value: T)

  datatype Result<+R, +E> = Success(value: R) | Failure(error: E)

  /** Every condition on which the program prints a message and exits with status 1. */
  datatype Fatal =
    | CannotCreateBucket(code: string)  // ensure_bucket: a ClientError whose code is not tolerated
    | NotAFolder                        // upload_folder_to_s3: the local path is not a directory
    | NoImagesToUpload                  // upload_folder_to_s3: no file had an image extension
    | NoImagesInBucket                  // list_s3_images: no listed key had an image extension
}
