/** What the modules see of Ansible's module object and of the command executor:
    `module.fail_json` ends a run with an error, `execute_command` hands back an
    exit code with the captured output, and parameters may be unset (`None`). */
module Runtime {

  datatype Option<+T> = None | Some(value: T)

  /** Why a run ends without a result */
  datatype Failure =
    | FailJson(msg: string)           // `module.fail_json(msg=...)`
    | UnboundLocal(variable: string)  // Python's UnboundLocalError on reading an unassigned local

  datatype Result<+T> = Ok(value: T) | Err(error: Failure)

  /** The `(rc, out, err)` triple returned by `execute_command` */
  datatype ExecResult = ExecResult(rc: int, out: string, err: string)

  /** Python truthiness of an optional string parameter: neither `None` nor empty */
  predicate Truthy(p: Option<string>) {
    p.Some? && p.value != ""
  }
}
