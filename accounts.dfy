/** Accounts: registering normal and admin users, and logging in. */
module Accounts {
  import opened Entities
  import opened Repositories

  /** The roles of a user registered through the normal route. */
  const UserRoles: set<string> := {"ROLE_USER"}

  /** The roles of a user registered as an administrator. */
  const AdminRoles: set<string> := {"ROLE_ADMIN", "ROLE_USER"}

  class AuthenticationService {
    const db: Database

    /** The password encoder: raw password to the stored form. */
    const encode: string -> string

    /**
     * The authentication manager's verdict on a username and raw password,
     * given the user table it looks users up in.
     */
    const authenticate: (map<string, User>, string, string) -> bool

    /** The token service: a signed token whose subject is the username. */
    const generateToken: string -> string

    constructor (
      db: Database,
      encode: string -> string,
      authenticate: (map<string, User>, string, string) -> bool,
      generateToken: string -> string)
      ensures this.db == db && this.encode == encode
      ensures this.authenticate == authenticate && this.generateToken == generateToken
    {
      this.db := db;
      this.encode := encode;
      this.authenticate := authenticate;
      this.generateToken := generateToken;
    }

    /**
     * Stores a new user with the request's username and email, the encoded
     * password and the given roles, unless the username is taken.
     */
    method Register(req: RegisterRequest, roles: set<string>) returns (r: Result<User>)
      requires db.Valid()
      modifies db
      ensures db.Valid()
      ensures r.Ok? <==> req.username !in old(db.users)
      ensures r.Err? ==> r.error == AlreadyRegistered && unchanged(db)
      ensures r.Ok? ==>
                && r.value == User(req.username, req.email, encode(req.password), roles)
                && db.users == old(db.users)[req.username := r.value]
      ensures db.books == old(db.books) && db.records == old(db.records)
      ensures db.nextBookId == old(db.nextBookId) && db.nextRecordId == old(db.nextRecordId)
    {
      if req.username in db.users {
        return Err(AlreadyRegistered);
      }
      var user := User(req.username, req.email, encode(req.password), roles);
      db.users := db.users[req.username := user];
      r := Ok(user);
    }

    /**
     * Registers a user with the single role ROLE_USER; a username already
     * taken is rejected and nothing changes. Every username stays unique.
     */
    method RegisterNormalUser(req: RegisterRequest) returns (r: Result<User>)
      requires db.Valid()
      modifies db
      ensures db.Valid()
      ensures r.Ok? <==> req.username !in old(db.users)
      ensures r.Err? ==> r.error == AlreadyRegistered && unchanged(db)
      ensures r.Ok? ==>
                && r.value.username == req.username && r.value.email == req.email
                && r.value.password == encode(req.password)
                && r.value.roles == {"ROLE_USER"}
                && db.users == old(db.users)[req.username := r.value]
      ensures db.books == old(db.books) && db.records == old(db.records)
      ensures db.nextBookId == old(db.nextBookId) && db.nextRecordId == old(db.nextRecordId)
    {
      r := Register(req, UserRoles);
    }

    /**
     * Registers a user with the roles ROLE_ADMIN and ROLE_USER; a username
     * already taken is rejected and nothing changes. Every username stays
     * unique.
     */
    method RegisterAdminUser(req: RegisterRequest) returns (r: Result<User>)
      requires db.Valid()
      modifies db
      ensures db.Valid()
      ensures r.Ok? <==> req.username !in old(db.users)
      ensures r.Err? ==> r.error == AlreadyRegistered && unchanged(db)
      ensures r.Ok? ==>
                && r.value.username == req.username && r.value.email == req.email
                && r.value.password == encode(req.password)
                && r.value.roles == {"ROLE_ADMIN", "ROLE_USER"}
                && db.users == old(db.users)[req.username := r.value]
      ensures db.books == old(db.books) && db.records == old(db.records)
      ensures db.nextBookId == old(db.nextBookId) && db.nextRecordId == old(db.nextRecordId)
    {
      r := Register(req, AdminRoles);
    }

    /**
     * Logs a user in: BadCredentials when the authentication manager
     * refuses, UserNotFound when the username is not stored, and otherwise a
     * token for the user with the stored user's username and roles. Reads
     * the user table and changes nothing.
     */
    function Login(req: LoginRequest): (r: Result<LoginResponse>)
      reads db
      requires db.Valid()
      ensures r.Ok? <==> authenticate(db.users, req.username, req.password) && req.username in db.users
      ensures !authenticate(db.users, req.username, req.password) ==> r == Err(BadCredentials)
      ensures authenticate(db.users, req.username, req.password) && req.username !in db.users ==>
                r == Err(UserNotFound)
      ensures r.Ok? ==>
                && r.value.username == req.username
                && r.value.roles == db.users[req.username].roles
                && r.value.token == generateToken(req.username)
    {
      if !authenticate(db.users, req.username, req.password) then Err(BadCredentials)
      else if req.username !in db.users then Err(UserNotFound)
      else
        var user := db.users[req.username];
        Ok(LoginResponse(generateToken(user.username), user.username, user.roles))
    }
  }
}
