/** Sessions by access token (src/auth.rs). */
module SessionMap {
  datatype Session = Session(route: string, userId: string, userName: string, createdAt: string)

  type Sessions = map<string, Session>

  /** Whether `token` belongs to a session on `route`. */
  predicate IsValid(sessions: Sessions, token: string, route: string) {
    token != "" && token in sessions && sessions[token].route == route
  }
}
