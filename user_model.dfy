/**
 * The user records the Basic-auth resolver searches. The model class that
 * stores them (models/user.py) is not part of this model: only the email
 * attribute and the order search returns records in matter here, and the
 * password check is_valid_password is left uninterpreted, a parameter of
 * every member that needs it.
 */
module UserModel {

  datatype User = User(id: string, email: string)

  /** User.search({'email': email}): the stored users with that email, in storage order. */
  function SearchByEmail(users: seq<User>, email: string): (found: seq<User>)
    ensures forall u :: u in found ==> u in users && u.email == email
    ensures forall u :: u in users && u.email == email ==> u in found
  {
    if users == [] then []
    else (if users[0].email == email then [users[0]] else []) + SearchByEmail(users[1..], email)
  }
}
