/** Values shared by every part of the orchestration model. */
module Common {

  /** Python's `Optional`: a value or `None`. */
  datatype Option<T> = None | Some(value: T)

  /** What a call that may raise hands back: its value, or the text of the exception (`str(e)`). */
  datatype Outcome<T> = Ok(value: T) | Raised(message: string)

  /** One record of the repository list, reduced to its name and the URL
      `clone_or_update_repo` clones. What cloning that URL yields is given per
      name (`CloneUpdate.Probe`), so no operation reads `url` itself. */
  datatype Repo = Repo(name: string, url: string)
}
