/** The notification preferences and Telegram link of a user
    (app/Models/User.php and its migrations). */
module Users {
  import opened Wrappers
  import opened TaskModel

  datatype User = User(
    id: UserId,
    name: string,
    phone: Option<string>,
    browserNotifications: bool,
    emailNotifications: bool,
    whatsappNotifications: bool,
    smsNotifications: bool,
    gekychatNotifications: bool,
    pushNotifications: bool,
    telegramNotifications: bool,
    telegramChatId: Option<string>)

  /** `$user->phone` in a condition: null, "" and "0" count as no phone. */
  predicate HasPhone(u: User) {
    Truthy(u.phone)
  }
}
