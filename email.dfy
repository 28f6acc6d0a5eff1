/**
 * EmailService, seen from the user service: each `enviar*` call either
 * hands one message to the mail transport or throws. What the transport
 * does is decided outside the model, by the `entregado` argument.
 */
module Email {
  import opened Wrappers
  import opened Errors
  import opened Model

  /** The content of a message handed to the transport (its HTML rendering is not modelled). */
  datatype Notificacion =
    | Credenciales(
        email: string, nombre: string, apellido: string, contrasena: string, rol: Rol)
    | CredencialesConActividad(
        email: string, nombre: string, apellido: string, contrasena: string,
        nombreActividad: string, sistemaAbrev: string, equipoNombre: string,
        trimestre: int, fechaMaxima: Option<string>)

  class EmailService {
    /** Every message the transport accepted, oldest first. */
    var enviados: seq<Notificacion>

    constructor ()
      ensures enviados == []
    {
      enviados := [];
    }

    /**
     * enviarCredenciales: sends the access data to the user's address; a
     * MessagingException becomes "Error al enviar email: ...".
     */
    method EnviarCredenciales(email: string, nombre: string, apellido: string, contrasena: string,
                              rol: Rol, entregado: bool)
      returns (r: Result<(), Error>)
      modifies this
      ensures r.Success? <==> entregado
      ensures r.Failure? ==> r.error == MailFailure
      ensures enviados == old(enviados) +
        (if entregado then [Credenciales(email, nombre, apellido, contrasena, rol)] else [])
    {
      if !entregado {
        return Failure(MailFailure);
      }
      enviados := enviados + [Credenciales(email, nombre, apellido, contrasena, rol)];
      r := Success(());
    }

    /** enviarCredencialesConActividad: the access data together with the assigned activity. */
    method EnviarCredencialesConActividad(email: string, nombre: string, apellido: string,
                                          contrasena: string, nombreActividad: string,
                                          sistemaAbrev: string, equipoNombre: string,
                                          trimestre: int, fechaMaxima: Option<string>,
                                          entregado: bool)
      returns (r: Result<(), Error>)
      modifies this
      ensures r.Success? <==> entregado
      ensures r.Failure? ==> r.error == MailFailure
      ensures enviados == old(enviados) +
        (if entregado
         then [CredencialesConActividad(email, nombre, apellido, contrasena, nombreActividad,
                                        sistemaAbrev, equipoNombre, trimestre, fechaMaxima)]
         else [])
    {
      if !entregado {
        return Failure(MailFailure);
      }
      enviados := enviados + [CredencialesConActividad(email, nombre, apellido, contrasena,
                                                       nombreActividad, sistemaAbrev, equipoNombre,
                                                       trimestre, fechaMaxima)];
      r := Success(());
    }
  }
}
