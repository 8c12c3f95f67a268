/**
 * The response envelope of the folder endpoints (ApiResponse): a success
 * flag, a message, and a payload that an error never carries.
 */
module Responses {

  /** The payloads the modelled endpoints put in an ApiResponse. */
  datatype Data =
    | NoData
    | FolderName(name: string)
    | Detection(newFolders: seq<string>, missingFolders: seq<string>)

  /** ApiResponse.success(message, data) and ApiResponse.error(message). */
  datatype ApiResponse =
    | Success(message: string, data: Data)
    | Error(message: string)
}
