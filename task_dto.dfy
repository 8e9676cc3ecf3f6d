/**
 * Request bodies of the task endpoints and the rules that check them
 * (src/tasks/dto/task.dto.ts).
 *
 * A request field is an `Option<string>`: `None` stands for a field that is
 * absent, `Some(s)` for a string value. The validation decorators on a field
 * become conjuncts of one validity predicate per request; a request is valid
 * when every rule on every field holds.
 */
module TaskDto {
  import opened Wrappers
  import opened TaskEntity

  /** The shortest title a create request may carry. */
  const MIN_TITLE_LENGTH: nat := 4

  /** Body of a create request. */
  datatype CreateTaskDto = CreateTaskDto(title: Option<string>, description: Option<string>)

  /** Body of an update request, as received: every field optional, status still a string. */
  datatype UpdateTaskDto = UpdateTaskDto(title: Option<string>, description: Option<string>, status: Option<string>)

  /** A checked update: the fields an update may overwrite, status already a `TaskStatus`. */
  datatype TaskPatch = TaskPatch(title: Option<string>, description: Option<string>, status: Option<TaskStatus>)

  /**
   * A create request is accepted exactly when its title is a string of at
   * least four characters; its description carries no rule.
   */
  function CreateTaskDtoValid(dto: CreateTaskDto): (ok: bool)
    ensures ok <==> dto.title.Some? && |dto.title.value| >= MIN_TITLE_LENGTH
  {
    && dto.title.Some?                                // IsString
    && dto.title.value != ""                          // IsNotEmpty
    && |dto.title.value| >= MIN_TITLE_LENGTH          // MinLength(4)
  }

  /**
   * An update request is accepted exactly when its status is absent or names
   * a member of `TaskStatus`; `IsOptional` switches the status rules off for
   * an absent status, and title and description carry no rule.
   */
  function UpdateTaskDtoValid(dto: UpdateTaskDto): (ok: bool)
    ensures ok <==> dto.status.None? || ParseStatus(dto.status.value).Some?
  {
    || dto.status.None?                               // IsOptional
    || dto.status.value in STATUS_NAMES               // IsString, IsIn([OPEN, IN_PROGRESS, DONE])
  }

  /** The typed patch carried by a valid update request. */
  function ToPatch(dto: UpdateTaskDto): (p: TaskPatch)
    requires UpdateTaskDtoValid(dto)
    ensures p.title == dto.title && p.description == dto.description
    ensures p.status.Some? <==> dto.status.Some?
    ensures p.status.Some? ==> StatusName(p.status.value) == dto.status.value
  {
    match dto.status
    case None => TaskPatch(dto.title, dto.description, None)
    case Some(name) => TaskPatch(dto.title, dto.description, Some(ParseStatus(name).value))
  }

  /** The request body that carries a given patch: the status written as its name. */
  function FromPatch(p: TaskPatch): (dto: UpdateTaskDto)
    ensures dto.title == p.title && dto.description == p.description
    ensures dto.status.Some? <==> p.status.Some?
    ensures p.status.Some? ==> dto.status.value == StatusName(p.status.value)
  {
    match p.status
    case None => UpdateTaskDto(p.title, p.description, None)
    case Some(s) => UpdateTaskDto(p.title, p.description, Some(StatusName(s)))
  }

  /** Every patch is carried by a valid request, and checking that request gives the patch back. */
  lemma PatchRoundTrip(p: TaskPatch)
    ensures UpdateTaskDtoValid(FromPatch(p))
    ensures ToPatch(FromPatch(p)) == p
  {
    if p.status.Some? {
      StatusRoundTrip(p.status.value);
    }
  }

  /** Checking a valid request and writing the patch back gives the same request. */
  lemma DtoRoundTrip(dto: UpdateTaskDto)
    requires UpdateTaskDtoValid(dto)
    ensures FromPatch(ToPatch(dto)) == dto
  {
  }

  /** An absent title, an empty title and a title of one to three characters are rejected. */
  lemma CreateRejectsShortTitle(title: Option<string>, description: Option<string>)
    requires title.None? || |title.value| < MIN_TITLE_LENGTH
    ensures !CreateTaskDtoValid(CreateTaskDto(title, description))
  {
  }

  /** Whether a create request is accepted does not depend on its description, present or absent. */
  lemma CreateDescriptionUnconstrained(title: Option<string>, d1: Option<string>, d2: Option<string>)
    ensures CreateTaskDtoValid(CreateTaskDto(title, d1)) == CreateTaskDtoValid(CreateTaskDto(title, d2))
  {
  }

  /** An update without a status is accepted whatever its title and description, even a short title. */
  lemma UpdateWithoutStatusAccepted(title: Option<string>, description: Option<string>)
    ensures UpdateTaskDtoValid(UpdateTaskDto(title, description, None))
  {
  }

  /** An update with a status is accepted exactly when the status is OPEN, IN_PROGRESS or DONE. */
  lemma UpdateStatusMembership(title: Option<string>, description: Option<string>, status: string)
    ensures UpdateTaskDtoValid(UpdateTaskDto(title, description, Some(status)))
        <==> status == "OPEN" || status == "IN_PROGRESS" || status == "DONE"
  {
  }
}
