/** An account (`models.User`): username and password are fixed for the
    object's lifetime; only the role can be changed. */
module Users {
  import opened Enums

  class User {
    const username: string
    const password: string
    var role: Role

    constructor (username: string, password: string, role: Role)
      ensures this.username == username && this.password == password && this.role == role
    {
      this.username := username;
      this.password := password;
      this.role := role;
    }

    /** `setRole`: replaces the role; username and password are constants. */
    method SetRole(role: Role)
      modifies this
      ensures this.role == role
    {
      this.role := role;
    }
  }
}
