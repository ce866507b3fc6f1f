/** The results of a check, as in lib/deepin_pw_check.h. */
module PwErrors {
  datatype PwError =
    | NoErr
    | PasswordEmpty
    | LengthShort
    | LengthLong
    | CharacterInvalid
    | Palindrome
    | Word
    | Repeat
    | Monotone
    | ConsecutiveSame
    | FirstUpper
    | Para
    | Internal
    | User
    | CharacterTypeTooFew
    | SameAsUsername

  datatype Strength = Error | Low | Middle | High
}
