/** The comment record the server returns, with its replies nested inside it. */
module Types {

  /**
   * A comment. `createdAt` is the server's timestamp text, kept as a string;
   * `replies` is `NoReplies` when the server sends no reply list.
   */
  datatype Comment = Comment(
    id: int,
    username: string,
    email: string,
    content: string,
    createdAt: string,
    replies: Replies)

  /** The optional `replies` array of a comment. */
  datatype Replies = NoReplies | Replies(list: seq<Comment>)

  /** A `File` picked in the form: its name, its MIME type (`file.type`) and its size in bytes. */
  datatype File = File(name: string, mime: string, size: nat)
}
