/** The responses the server sends: a status code and a JSON body. */
module Http {
  import opened Wrappers
  import opened Schema

  datatype Body =
    | Message(text: string)                    // `{ message }`
    | Disclosure(name: string, major: string, status: string, notes: Option<string>)
    | StudentJson(student: Student)
    | StudentList(rows: seq<Student>)
    | ImportCount(count: nat)                  // `{ count }`
    | AdminInfo(id: int, email: string)        // `{ id, email }`
    | SettingsInfo(announcementDate: Option<Timestamp>, isOpen: bool)
    | SettingJson(setting: Setting)
    | NoContent                                // `res.status(204).end()`
    | ErrorPage                                // Express's default error handler

  datatype Response = Response(status: int, body: Body)

  /** What `next(err)` leads to: the default error handler's 500. */
  const ServerError := Response(500, ErrorPage)
}
