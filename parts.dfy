/** Values shared by the prompt-part routes and the client list logic. */
module Parts {

  datatype Option<+T> = None | Some(value: T)

  /** The two kinds of prompt part: a mirror of a file under the project
      directory, or an inline text snippet. */
  datatype PartType = File | Snippet

  /** One row of the `prompt_parts` table. `createdAt` and `updatedAt` are
      ticks of a logical clock standing in for `new Date()`. */
  datatype Part = Part(
    id: int,
    projectId: int,
    name: string,
    partType: PartType,
    content: string,
    position: int,
    included: bool,
    createdAt: nat,
    updatedAt: nat)

  /** The failure kinds of a route: 400, 404 "Prompt part not found",
      404 "File not found", and a thrown error. A throw inside a route's
      `try` is answered with 500; update's part lookup and file steps throw
      before its `try`, so no reply is sent and the handler's promise is
      rejected. A lookup that returned nothing throws once it is read. */
  datatype Error = BadRequest | NotFound | FileNotFound | Failure

  datatype Result<+T> = Ok(value: T) | Err(error: Error)

  /** A file on disk: `PROJECTS_ROOT/project/part`. Distinct pairs are
      distinct paths. */
  datatype Path = Path(project: string, part: string)

  /** The body of one `PUT /api/prompt_parts/:id` that the client sends while
      reordering: `{ position }` for part `id`. */
  datatype PositionUpdate = PositionUpdate(id: int, position: int)

  /** JavaScript truthiness of an optional string field of a request body:
      absent and `''` are both falsy. */
  predicate Truthy(s: Option<string>)
  {
    s.Some? && s.value != ""
  }
}
